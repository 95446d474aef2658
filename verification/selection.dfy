/**
 * The quota-balanced top-K selection of revisions 3.0 and 4.0, applied to
 * results already sorted by descending score: the first Wikipedia result is
 * moved to the front, the fill pass appends the rest in order while the
 * Wikipedia quota lasts and the capacity is not reached, and a backfill pass
 * tries to add further non-Wikipedia results.
 *
 * `PickTop` follows the three loops; `Balanced` is an independent
 * description of the same output, from which the contract is proved.
 */
module Selection {
  import opened Seqs
  import opened Ranking
  import opened Pages

  /** Position of the first Wikipedia result, or `|s|` when there is none. */
  function FirstWiki(s: seq<SearchResult>): (k: nat)
    ensures k <= |s|
    ensures k < |s| ==> IsWiki(s[k])
    ensures forall i :: 0 <= i < k ==> !IsWiki(s[i])
  {
    if s == [] then 0 else if IsWiki(s[0]) then 0 else 1 + FirstWiki(s[1..])
  }

  /** The input with the prioritised Wikipedia result removed (Java `results.remove(i)`). */
  function Remaining(s: seq<SearchResult>): seq<SearchResult> {
    var k := FirstWiki(s);
    if k < |s| then s[..k] + s[k + 1..] else s
  }

  /** The output after the priority pass: the first Wikipedia result, if any. */
  function Priority(s: seq<SearchResult>): seq<SearchResult> {
    var k := FirstWiki(s);
    if k < |s| then [s[k]] else []
  }

  /** The fill loop: stop at capacity; a Wikipedia result needs quota left; anything else goes in. */
  function Fill(rest: seq<SearchResult>, acc: seq<SearchResult>, wikiCount: nat, cap: nat, quota: nat): seq<SearchResult>
    decreases |rest|
  {
    if rest == [] || |acc| >= cap then acc
    else if IsWiki(rest[0]) then
      if wikiCount < quota then Fill(rest[1..], acc + [rest[0]], wikiCount + 1, cap, quota)
      else Fill(rest[1..], acc, wikiCount, cap, quota)
    else Fill(rest[1..], acc + [rest[0]], wikiCount, cap, quota)
  }

  /** The 4.0 backfill loop: stop at capacity, then add results not yet present that are not Wikipedia. */
  function Backfill(rest: seq<SearchResult>, acc: seq<SearchResult>, cap: nat): seq<SearchResult>
    decreases |rest|
  {
    if rest == [] || |acc| >= cap then acc
    else if rest[0] !in acc && !IsWiki(rest[0]) then Backfill(rest[1..], acc + [rest[0]], cap)
    else Backfill(rest[1..], acc, cap)
  }

  /** `pickTop15WithWikiConstraint` with its capacity and quota as parameters. */
  function PickTop(s: seq<SearchResult>, cap: nat, quota: nat): (r: seq<SearchResult>)
    requires cap >= 1 && quota >= 1
    ensures |r| <= cap
    ensures WikiCount(r) <= quota
    ensures FirstWiki(s) < |s| ==> r != [] && r[0] == s[FirstWiki(s)]
    ensures FirstWiki(s) == |s| ==> IsSubseq(r, s)
    ensures forall x :: x in r ==> x in s
    ensures NoDup(s) ==> NoDup(r)
    ensures |r| < cap ==> forall x :: x in s && !IsWiki(x) ==> x in r
  {
    var rest := Remaining(s);
    var first := Priority(s);
    var filled := Fill(rest, first, |first|, cap, quota);
    var r := if |filled| < cap then Backfill(rest, filled, cap) else filled;
    PickTopIsBalanced(s, cap, quota);
    BalancedProperties(s, cap, quota);
    r
  }

  /** The number of Wikipedia results. */
  function WikiCount(s: seq<SearchResult>): nat {
    if s == [] then 0 else (if IsWiki(s[0]) then 1 else 0) + WikiCount(s[1..])
  }

  lemma {:induction false} WikiCountSubseq(a: seq<SearchResult>, b: seq<SearchResult>)
    requires IsSubseq(a, b)
    ensures WikiCount(a) <= WikiCount(b)
    decreases |b|
  {
    if a != [] {
      if a[0] == b[0] && IsSubseq(a[1..], b[1..]) {
        WikiCountSubseq(a[1..], b[1..]);
      } else {
        WikiCountSubseq(a, b[1..]);
      }
    }
  }

  lemma {:induction false} WikiCountZero(s: seq<SearchResult>)
    ensures WikiCount(s) == 0 <==> forall x :: x in s ==> !IsWiki(x)
    decreases |s|
  {
    if s != [] {
      WikiCountZero(s[1..]);
      assert forall x :: x in s <==> x == s[0] || x in s[1..];
    }
  }

  /** Keeps every non-Wikipedia result and the first `k` Wikipedia results, in order. */
  function Admit(s: seq<SearchResult>, k: nat): seq<SearchResult> {
    if s == [] then []
    else if !IsWiki(s[0]) then [s[0]] + Admit(s[1..], k)
    else if k > 0 then [s[0]] + Admit(s[1..], k - 1)
    else Admit(s[1..], 0)
  }

  /**
   * The selection in one formula: the prioritised Wikipedia result, then the
   * admitted remainder cut to the capacity left.
   */
  function Balanced(s: seq<SearchResult>, cap: nat, quota: nat): seq<SearchResult>
    requires cap >= 1 && quota >= 1
  {
    var first := Priority(s);
    first + Take(Admit(Remaining(s), quota - |first|), cap - |first|)
  }

  lemma {:induction false} AdmitSubseq(s: seq<SearchResult>, k: nat)
    ensures IsSubseq(Admit(s, k), s)
    decreases |s|
  {
    if s != [] {
      if !IsWiki(s[0]) {
        AdmitSubseq(s[1..], k);
      } else if k > 0 {
        AdmitSubseq(s[1..], k - 1);
      } else {
        AdmitSubseq(s[1..], 0);
        var a := Admit(s[1..], 0);
        if a != [] {
          assert !(a[0] == s[0] && IsSubseq(a[1..], s[1..])) ==> IsSubseq(a, s[1..]);
        }
      }
    }
  }

  lemma {:induction false} AdmitWikiCount(s: seq<SearchResult>, k: nat)
    ensures WikiCount(Admit(s, k)) <= k
    decreases |s|
  {
    if s != [] {
      if !IsWiki(s[0]) {
        AdmitWikiCount(s[1..], k);
      } else if k > 0 {
        AdmitWikiCount(s[1..], k - 1);
      } else {
        AdmitWikiCount(s[1..], 0);
      }
    }
  }

  lemma {:induction false} AdmitKeepsNonWiki(s: seq<SearchResult>, k: nat)
    ensures forall x :: x in s && !IsWiki(x) ==> x in Admit(s, k)
    decreases |s|
  {
    if s != [] {
      if !IsWiki(s[0]) {
        AdmitKeepsNonWiki(s[1..], k);
      } else if k > 0 {
        AdmitKeepsNonWiki(s[1..], k - 1);
      } else {
        AdmitKeepsNonWiki(s[1..], 0);
      }
      assert forall x :: x in s ==> x == s[0] || x in s[1..];
    }
  }

  /** With no more Wikipedia results than the quota, admission keeps everything. */
  lemma {:induction false} AdmitAll(s: seq<SearchResult>, k: nat)
    requires WikiCount(s) <= k
    ensures Admit(s, k) == s
    decreases |s|
  {
    if s != [] {
      if !IsWiki(s[0]) {
        AdmitAll(s[1..], k);
      } else {
        AdmitAll(s[1..], k - 1);
      }
    }
  }

  /** The fill loop is the admitted remainder cut to the capacity left. */
  lemma {:induction false} FillIsAdmit(rest: seq<SearchResult>, acc: seq<SearchResult>, c: nat, cap: nat, quota: nat)
    requires |acc| <= cap && c <= quota
    ensures Fill(rest, acc, c, cap, quota) == acc + Take(Admit(rest, quota - c), cap - |acc|)
    decreases |rest|
  {
    if rest == [] || |acc| >= cap {
      assert acc + [] == acc;
    } else if IsWiki(rest[0]) && c >= quota {
      FillIsAdmit(rest[1..], acc, c, cap, quota);
      FillSkipStep(rest, acc, c, cap, quota);
    } else if IsWiki(rest[0]) {
      FillIsAdmit(rest[1..], acc + [rest[0]], c + 1, cap, quota);
      FillTakeWiki(rest, acc, c, cap, quota);
    } else {
      FillIsAdmit(rest[1..], acc + [rest[0]], c, cap, quota);
      FillTakeOther(rest, acc, c, cap, quota);
    }
  }

  /** One fill step past a Wikipedia result once the quota is spent. */
  lemma FillSkipStep(rest: seq<SearchResult>, acc: seq<SearchResult>, c: nat, cap: nat, quota: nat)
    requires rest != [] && |acc| < cap && c == quota && IsWiki(rest[0])
    requires Fill(rest[1..], acc, c, cap, quota) == acc + Take(Admit(rest[1..], quota - c), cap - |acc|)
    ensures Fill(rest, acc, c, cap, quota) == acc + Take(Admit(rest, quota - c), cap - |acc|)
  {
    assert Admit(rest, quota - c) == Admit(rest[1..], quota - c);
  }

  /** One fill step that places a Wikipedia result while quota is left. */
  lemma FillTakeWiki(rest: seq<SearchResult>, acc: seq<SearchResult>, c: nat, cap: nat, quota: nat)
    requires rest != [] && |acc| < cap && c < quota && IsWiki(rest[0])
    requires Fill(rest[1..], acc + [rest[0]], c + 1, cap, quota)
             == (acc + [rest[0]]) + Take(Admit(rest[1..], quota - c - 1), cap - |acc| - 1)
    ensures Fill(rest, acc, c, cap, quota) == acc + Take(Admit(rest, quota - c), cap - |acc|)
  {
    var a := Admit(rest[1..], quota - c - 1);
    var t := Take(a, cap - |acc| - 1);
    assert (acc + [rest[0]]) + t == acc + ([rest[0]] + t);
    assert Admit(rest, quota - c) == [rest[0]] + a;
    TakeCons(rest[0], a, cap - |acc|);
  }

  /** One fill step that places a non-Wikipedia result. */
  lemma FillTakeOther(rest: seq<SearchResult>, acc: seq<SearchResult>, c: nat, cap: nat, quota: nat)
    requires rest != [] && |acc| < cap && c <= quota && !IsWiki(rest[0])
    requires Fill(rest[1..], acc + [rest[0]], c, cap, quota)
             == (acc + [rest[0]]) + Take(Admit(rest[1..], quota - c), cap - |acc| - 1)
    ensures Fill(rest, acc, c, cap, quota) == acc + Take(Admit(rest, quota - c), cap - |acc|)
  {
    var a := Admit(rest[1..], quota - c);
    var t := Take(a, cap - |acc| - 1);
    assert (acc + [rest[0]]) + t == acc + ([rest[0]] + t);
    assert Admit(rest, quota - c) == [rest[0]] + a;
    TakeCons(rest[0], a, cap - |acc|);
  }

  /** The backfill loop adds nothing once every non-Wikipedia candidate is already placed. */
  lemma {:induction false} BackfillNoOp(rest: seq<SearchResult>, acc: seq<SearchResult>, cap: nat)
    requires forall x :: x in rest && !IsWiki(x) ==> x in acc
    ensures Backfill(rest, acc, cap) == acc
    decreases |rest|
  {
    if rest != [] && |acc| < cap {
      assert forall x :: x in rest[1..] ==> x in rest;
      BackfillNoOp(rest[1..], acc, cap);
    }
  }

  /** When the fill pass ends below capacity it has placed every non-Wikipedia candidate. */
  lemma FillCoversNonWiki(s: seq<SearchResult>, cap: nat, quota: nat)
    requires cap >= 1 && quota >= 1
    ensures |Fill(Remaining(s), Priority(s), |Priority(s)|, cap, quota)| < cap ==>
              forall x :: x in Remaining(s) && !IsWiki(x) ==> x in Fill(Remaining(s), Priority(s), |Priority(s)|, cap, quota)
  {
    FillCovers(Remaining(s), Priority(s), |Priority(s)|, cap, quota);
  }

  lemma FillCovers(rest: seq<SearchResult>, acc: seq<SearchResult>, c: nat, cap: nat, quota: nat)
    requires |acc| <= cap && c <= quota
    ensures |Fill(rest, acc, c, cap, quota)| < cap ==>
              forall x :: x in rest && !IsWiki(x) ==> x in Fill(rest, acc, c, cap, quota)
  {
    var filled := Fill(rest, acc, c, cap, quota);
    FillIsAdmit(rest, acc, c, cap, quota);
    if |filled| < cap {
      var adm := Admit(rest, quota - c);
      assert Take(adm, cap - |acc|) == adm;
      AdmitKeepsNonWiki(rest, quota - c);
      assert filled == acc + adm;
    }
  }

  /**
   * The backfill pass never adds anything: when the fill pass ends below
   * capacity, it has already placed every non-Wikipedia candidate.
   */
  lemma BackfillAddsNothing(s: seq<SearchResult>, cap: nat, quota: nat)
    requires cap >= 1 && quota >= 1
    ensures |Fill(Remaining(s), Priority(s), |Priority(s)|, cap, quota)| < cap ==>
              Backfill(Remaining(s), Fill(Remaining(s), Priority(s), |Priority(s)|, cap, quota), cap)
              == Fill(Remaining(s), Priority(s), |Priority(s)|, cap, quota)
  {
    var filled := Fill(Remaining(s), Priority(s), |Priority(s)|, cap, quota);
    FillCoversNonWiki(s, cap, quota);
    if |filled| < cap {
      BackfillNoOp(Remaining(s), filled, cap);
    }
  }

  lemma PickTopIsBalanced(s: seq<SearchResult>, cap: nat, quota: nat)
    requires cap >= 1 && quota >= 1
    ensures var rest := Remaining(s);
            var filled := Fill(rest, Priority(s), |Priority(s)|, cap, quota);
            (if |filled| < cap then Backfill(rest, filled, cap) else filled) == Balanced(s, cap, quota)
  {
    FillIsAdmit(Remaining(s), Priority(s), |Priority(s)|, cap, quota);
    BackfillAddsNothing(s, cap, quota);
  }

  /** The remainder is the input minus the prioritised result, in input order. */
  lemma RemainingSubseq(s: seq<SearchResult>)
    ensures IsSubseq(Remaining(s), s)
    ensures FirstWiki(s) < |s| && NoDup(s) ==> s[FirstWiki(s)] !in Remaining(s)
  {
    var k := FirstWiki(s);
    if k < |s| {
      DeleteSubseq(s, k);
      if NoDup(s) {
        DeleteRemoves(s, k);
      }
    } else {
      SubseqRefl(s);
    }
  }

  /** Without duplicates, deleting position `k` removes the element there. */
  lemma DeleteRemoves(s: seq<SearchResult>, k: nat)
    requires k < |s| && NoDup(s)
    ensures s[k] !in s[..k] + s[k + 1..]
  {
    var d := s[..k] + s[k + 1..];
    forall i | 0 <= i < |d| ensures d[i] != s[k] {
      if i < k {
        assert d[i] == s[i];
      } else {
        assert d[i] == s[i + 1];
      }
    }
  }

  /** The part after the priority slot: a subsequence of the remainder, within quota and capacity. */
  lemma BalancedTail(s: seq<SearchResult>, cap: nat, quota: nat)
    requires cap >= 1 && quota >= 1
    ensures var p := |Priority(s)|;
            var r := Balanced(s, cap, quota);
            && p <= |r| && r[..p] == Priority(s)
            && IsSubseq(r[p..], Remaining(s))
            && IsSubseq(r[p..], s)
            && WikiCount(r[p..]) <= quota - p
            && |r[p..]| <= cap - p
            && (|r| < cap ==> r[p..] == Admit(Remaining(s), quota - p))
  {
    var r := Balanced(s, cap, quota);
    var first := Priority(s);
    var rest := Remaining(s);
    var adm := Admit(rest, quota - |first|);
    var tail := Take(adm, cap - |first|);
    assert r[|first|..] == tail;
    AdmitSubseq(rest, quota - |first|);
    AdmitWikiCount(rest, quota - |first|);
    PrefixSubseq(adm, |tail|);
    SubseqTrans(tail, adm, rest);
    RemainingSubseq(s);
    SubseqTrans(tail, rest, s);
    WikiCountSubseq(tail, adm);
  }

  lemma BalancedProperties(s: seq<SearchResult>, cap: nat, quota: nat)
    requires cap >= 1 && quota >= 1
    ensures |Balanced(s, cap, quota)| <= cap
    ensures WikiCount(Balanced(s, cap, quota)) <= quota
    ensures FirstWiki(s) < |s| ==> Balanced(s, cap, quota) != [] && Balanced(s, cap, quota)[0] == s[FirstWiki(s)]
    ensures FirstWiki(s) == |s| ==> IsSubseq(Balanced(s, cap, quota), s)
    ensures forall x :: x in Balanced(s, cap, quota) ==> x in s
    ensures NoDup(s) ==> NoDup(Balanced(s, cap, quota))
    ensures |Balanced(s, cap, quota)| < cap ==> forall x :: x in s && !IsWiki(x) ==> x in Balanced(s, cap, quota)
  {
    BalancedBounds(s, cap, quota);
    BalancedMembers(s, cap, quota);
    if NoDup(s) {
      BalancedNoDup(s, cap, quota);
    }
    if |Balanced(s, cap, quota)| < cap {
      BalancedCovers(s, cap, quota);
    }
  }

  /** Capacity, quota, and the prioritised Wikipedia result in front. */
  lemma BalancedBounds(s: seq<SearchResult>, cap: nat, quota: nat)
    requires cap >= 1 && quota >= 1
    ensures |Balanced(s, cap, quota)| <= cap
    ensures WikiCount(Balanced(s, cap, quota)) <= quota
    ensures FirstWiki(s) < |s| ==> Balanced(s, cap, quota) != [] && Balanced(s, cap, quota)[0] == s[FirstWiki(s)]
  {
    var r := Balanced(s, cap, quota);
    BalancedTail(s, cap, quota);
    var p := |Priority(s)|;
    var tail := r[p..];
    if p == 1 {
      assert r == [r[0]] + tail;
      assert WikiCount(r) == 1 + WikiCount(tail);
    } else {
      assert r == tail;
    }
  }

  /** Every selected result is an input, and without a Wikipedia input the selection is a subsequence. */
  lemma BalancedMembers(s: seq<SearchResult>, cap: nat, quota: nat)
    requires cap >= 1 && quota >= 1
    ensures FirstWiki(s) == |s| ==> IsSubseq(Balanced(s, cap, quota), s)
    ensures forall x :: x in Balanced(s, cap, quota) ==> x in s
  {
    var r := Balanced(s, cap, quota);
    BalancedTail(s, cap, quota);
    var p := |Priority(s)|;
    var tail := r[p..];
    SubseqElements(tail, s);
    if p == 0 {
      assert r == tail;
    }
    assert forall x :: x in r ==> x in r[..p] || x in tail by {
      assert r == r[..p] + tail;
    }
  }

  lemma BalancedNoDup(s: seq<SearchResult>, cap: nat, quota: nat)
    requires cap >= 1 && quota >= 1 && NoDup(s)
    ensures NoDup(Balanced(s, cap, quota))
  {
    var r := Balanced(s, cap, quota);
    BalancedTail(s, cap, quota);
    var p := |Priority(s)|;
    var tail := r[p..];
    RemainingSubseq(s);
    SubseqNoDup(tail, s);
    if p == 1 {
      SubseqElements(tail, Remaining(s));
      forall i, j | 0 <= i < j < |r| ensures r[i] != r[j] {
        assert r[j] == tail[j - 1];
        if i > 0 {
          assert r[i] == tail[i - 1];
        }
      }
    } else {
      assert r == tail;
    }
  }

  lemma BalancedCovers(s: seq<SearchResult>, cap: nat, quota: nat)
    requires cap >= 1 && quota >= 1
    requires |Balanced(s, cap, quota)| < cap
    ensures forall x :: x in s && !IsWiki(x) ==> x in Balanced(s, cap, quota)
  {
    var first := Priority(s);
    var rest := Remaining(s);
    var adm := Admit(rest, quota - |first|);
    assert Take(adm, cap - |first|) == adm;
    assert Balanced(s, cap, quota) == first + adm;
    AdmitKeepsNonWiki(rest, quota - |first|);
    RemainingKeepsNonWiki(s);
  }

  /** Removing the prioritised result keeps every non-Wikipedia result. */
  lemma RemainingKeepsNonWiki(s: seq<SearchResult>)
    ensures forall x :: x in s && !IsWiki(x) ==> x in Remaining(s)
  {
    var k := FirstWiki(s);
    if k < |s| {
      var rest := s[..k] + s[k + 1..];
      forall x | x in s && !IsWiki(x) ensures x in rest {
        var i :| 0 <= i < |s| && s[i] == x;
        if i < k {
          assert rest[i] == x;
        } else {
          assert rest[i - 1] == x;
        }
      }
    }
  }

  /**
   * On input sorted by descending score, the prioritised Wikipedia result
   * has the best score of all Wikipedia results, and the results after the
   * priority slot are still in descending order.
   */
  lemma BalancedOrder(s: seq<SearchResult>, cap: nat, quota: nat)
    requires cap >= 1 && quota >= 1
    requires SortedDesc(s, ScoreOf)
    ensures var r := Balanced(s, cap, quota);
            var p := |Priority(s)|;
            && SortedDesc(r[p..], ScoreOf)
            && (p == 1 ==> forall x :: x in s && IsWiki(x) ==> r[0].score >= x.score)
  {
    var r := Balanced(s, cap, quota);
    var first := Priority(s);
    var rest := Remaining(s);
    var adm := Admit(rest, quota - |first|);
    var tail := Take(adm, cap - |first|);
    AdmitSubseq(rest, quota - |first|);
    PrefixSubseq(adm, |tail|);
    SubseqTrans(tail, adm, rest);
    RemainingSubseq(s);
    SubseqTrans(tail, rest, s);
    SubseqSortedDesc(tail, s, ScoreOf);
    assert r[|first|..] == tail;
    if FirstWiki(s) < |s| {
      FirstWikiIsBest(s);
    }
  }

  /** On descending input, the first Wikipedia result has the best score among Wikipedia results. */
  lemma FirstWikiIsBest(s: seq<SearchResult>)
    requires SortedDesc(s, ScoreOf) && FirstWiki(s) < |s|
    ensures forall x :: x in s && IsWiki(x) ==> s[FirstWiki(s)].score >= x.score
  {
    var k := FirstWiki(s);
    forall x | x in s && IsWiki(x) ensures s[k].score >= x.score {
      var i :| 0 <= i < |s| && s[i] == x;
      assert i >= k;
      assert ScoreOf(s[k]) >= ScoreOf(s[i]) || i == k;
    }
  }

  /**
   * Selecting again from a selection returns it unchanged: the front result
   * is still the first Wikipedia result, the quota and the capacity are
   * already respected.
   */
  lemma BalancedIdempotent(s: seq<SearchResult>, cap: nat, quota: nat)
    requires cap >= 1 && quota >= 1
    ensures Balanced(Balanced(s, cap, quota), cap, quota) == Balanced(s, cap, quota)
  {
    var r := Balanced(s, cap, quota);
    BalancedBounds(s, cap, quota);
    if FirstWiki(s) < |s| {
      var tail := r[1..];
      assert r == [r[0]] + tail;
      assert WikiCount(r) == 1 + WikiCount(tail);
      TakeAdmitAll(tail, quota - 1, cap - 1);
      BalancedFixedWiki(r[0], tail, cap, quota);
    } else {
      BalancedMembers(s, cap, quota);
      forall x | x in r ensures !IsWiki(x) {
        var i :| 0 <= i < |s| && s[i] == x;
      }
      NoWikiFirst(r);
      NoWikiCountZero(r);
      TakeAdmitAll(r, quota, cap);
      BalancedFixedNoWiki(r, cap, quota);
    }
  }

  /** Within quota and capacity, admission and the cut keep everything. */
  lemma TakeAdmitAll(s: seq<SearchResult>, k: nat, n: nat)
    requires WikiCount(s) <= k && |s| <= n
    ensures Take(Admit(s, k), n) == s
  {
    AdmitAll(s, k);
  }

  /** A Wikipedia result followed by a tail that admission and the cut keep whole is its own selection. */
  lemma BalancedFixedWiki(w: SearchResult, tail: seq<SearchResult>, cap: nat, quota: nat)
    requires cap >= 1 && quota >= 1 && IsWiki(w)
    requires Take(Admit(tail, quota - 1), cap - 1) == tail
    ensures Balanced([w] + tail, cap, quota) == [w] + tail
  {
    var r := [w] + tail;
    assert FirstWiki(r) == 0;
    assert r[..0] + r[1..] == tail;
  }

  /** A selection without Wikipedia results that admission and the cut keep whole is its own selection. */
  lemma BalancedFixedNoWiki(r: seq<SearchResult>, cap: nat, quota: nat)
    requires cap >= 1 && quota >= 1
    requires FirstWiki(r) == |r| && Take(Admit(r, quota), cap) == r
    ensures Balanced(r, cap, quota) == r
  {
    assert Priority(r) == [] && Remaining(r) == r;
  }

  lemma {:induction false} NoWikiCountZero(s: seq<SearchResult>)
    requires FirstWiki(s) == |s|
    ensures WikiCount(s) == 0
    decreases |s|
  {
    if s != [] {
      NoWikiCountZero(s[1..]);
    }
  }

  lemma NoWikiFirst(s: seq<SearchResult>)
    requires forall x :: x in s ==> !IsWiki(x)
    ensures FirstWiki(s) == |s|
  {
  }

  lemma SortedSameElements(s: seq<SearchResult>)
    ensures forall x :: x in SortDesc(s, ScoreOf) <==> x in s
  {
    var sorted := SortDesc(s, ScoreOf);
    forall x ensures x in sorted <==> x in s {
      assert x in sorted <==> x in multiset(sorted);
    }
  }

  /**
   * The pick applied to the stable descending sort of `s`: within capacity
   * and quota, made of input results; when `s` holds a Wikipedia result the
   * best-scored one is first and the others follow in descending order.
   */
  lemma RankAndPickContract(s: seq<SearchResult>, cap: nat, quota: nat)
    requires cap >= 1 && quota >= 1
    ensures |PickTop(SortDesc(s, ScoreOf), cap, quota)| <= cap
    ensures WikiCount(PickTop(SortDesc(s, ScoreOf), cap, quota)) <= quota
    ensures forall x :: x in PickTop(SortDesc(s, ScoreOf), cap, quota) ==> x in s
    ensures NoDup(s) ==> NoDup(PickTop(SortDesc(s, ScoreOf), cap, quota))
    ensures (exists x :: x in s && IsWiki(x)) ==>
              var r := PickTop(SortDesc(s, ScoreOf), cap, quota);
              && r != [] && IsWiki(r[0])
              && (forall x :: x in s && IsWiki(x) ==> r[0].score >= x.score)
              && SortedDesc(r[1..], ScoreOf)
    ensures (forall x :: x in s ==> !IsWiki(x)) ==> SortedDesc(PickTop(SortDesc(s, ScoreOf), cap, quota), ScoreOf)
  {
    var sorted := SortDesc(s, ScoreOf);
    SortedSameElements(s);
    if NoDup(s) {
      MultisetNoDup(s);
      NoDupMultiset(sorted);
    }
    if exists x :: x in s && IsWiki(x) {
      RankAndPickWiki(s, cap, quota);
    } else {
      RankAndPickNoWiki(s, cap, quota);
    }
  }

  lemma RankAndPickWiki(s: seq<SearchResult>, cap: nat, quota: nat)
    requires cap >= 1 && quota >= 1
    requires exists x :: x in s && IsWiki(x)
    ensures var r := PickTop(SortDesc(s, ScoreOf), cap, quota);
            && r != [] && IsWiki(r[0])
            && (forall x :: x in s && IsWiki(x) ==> r[0].score >= x.score)
            && SortedDesc(r[1..], ScoreOf)
  {
    var sorted := SortDesc(s, ScoreOf);
    var r := PickTop(sorted, cap, quota);
    SortedSameElements(s);
    var w :| w in s && IsWiki(w);
    assert w in sorted;
    var i :| 0 <= i < |sorted| && sorted[i] == w;
    assert FirstWiki(sorted) <= i;
    assert |Priority(sorted)| == 1;
    PickTopIsBalanced(sorted, cap, quota);
    assert r == Balanced(sorted, cap, quota);
    BalancedOrder(sorted, cap, quota);
    assert IsWiki(r[0]);
  }

  lemma RankAndPickNoWiki(s: seq<SearchResult>, cap: nat, quota: nat)
    requires cap >= 1 && quota >= 1
    requires forall x :: x in s ==> !IsWiki(x)
    ensures SortedDesc(PickTop(SortDesc(s, ScoreOf), cap, quota), ScoreOf)
  {
    var sorted := SortDesc(s, ScoreOf);
    SortedSameElements(s);
    PickTopIsBalanced(sorted, cap, quota);
    BalancedOrder(sorted, cap, quota);
    NoWikiFirst(sorted);
    var r := PickTop(sorted, cap, quota);
    assert r[0..] == r;
  }

  /**
   * The three loops of `pickTop15WithWikiConstraint` as written: an indexed
   * search that removes the first Wikipedia result, the fill loop and the
   * backfill loop with its membership test.
   */
  method PickTopLoops(results: seq<SearchResult>, cap: nat, quota: nat) returns (finalList: seq<SearchResult>)
    requires cap >= 1 && quota >= 1
    ensures finalList == PickTop(results, cap, quota)
    ensures |finalList| <= cap && WikiCount(finalList) <= quota
  {
    var rest, first := PriorityLoop(results);
    finalList := FillLoop(rest, first, |first|, cap, quota);
    if |finalList| < cap {
      finalList := BackfillLoop(rest, finalList, cap);
    }
  }

  /** The first loop: find the first Wikipedia result, move it to the output and remove it from the input. */
  method PriorityLoop(results: seq<SearchResult>) returns (rest: seq<SearchResult>, first: seq<SearchResult>)
    ensures rest == Remaining(results) && first == Priority(results)
    ensures |rest| + |first| == |results| && |first| <= 1
  {
    rest := results;
    first := [];
    var i := 0;
    while i < |rest|
      invariant 0 <= i <= |rest| && rest == results
      invariant forall j :: 0 <= j < i ==> !IsWiki(rest[j])
      invariant first == []
    {
      if IsWiki(rest[i]) {
        first := [rest[i]];
        rest := rest[..i] + rest[i + 1..];
        return;
      }
      i := i + 1;
    }
  }

  /** The fill loop, counting the Wikipedia results taken so far. */
  method FillLoop(rest: seq<SearchResult>, acc: seq<SearchResult>, wikiCount: nat, cap: nat, quota: nat)
    returns (out: seq<SearchResult>)
    ensures out == Fill(rest, acc, wikiCount, cap, quota)
  {
    out := acc;
    var count: nat := wikiCount;
    var j := 0;
    while j < |rest|
      invariant 0 <= j <= |rest|
      invariant Fill(rest[j..], out, count, cap, quota) == Fill(rest, acc, wikiCount, cap, quota)
    {
      if |out| >= cap {
        break;
      }
      var r := rest[j];
      assert rest[j..][1..] == rest[j + 1..];
      if IsWiki(r) {
        if count < quota {
          out := out + [r];
          count := count + 1;
        }
      } else {
        out := out + [r];
      }
      j := j + 1;
    }
  }

  /** The backfill loop: add results not yet present that are not Wikipedia, up to the capacity. */
  method BackfillLoop(rest: seq<SearchResult>, acc: seq<SearchResult>, cap: nat) returns (out: seq<SearchResult>)
    ensures out == Backfill(rest, acc, cap)
  {
    out := acc;
    var k := 0;
    while k < |rest|
      invariant 0 <= k <= |rest|
      invariant Backfill(rest[k..], out, cap) == Backfill(rest, acc, cap)
    {
      if |out| >= cap {
        break;
      }
      var r := rest[k];
      assert rest[k..][1..] == rest[k + 1..];
      if r !in out {
        if !IsWiki(r) {
          out := out + [r];
        }
      }
      k := k + 1;
    }
  }
}
