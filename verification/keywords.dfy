/**
 * The table-driven keyword scorer shared by every revision: each rule is a
 * set of lower-case trigger substrings with one weight, added once when any
 * trigger occurs in the lower-cased text; every query token found in the
 * text adds 1.0 more.
 */
module Keywords {
  import opened Text

  datatype Rule = Rule(triggers: seq<string>, weight: real)

  /** The rule fires when one of its triggers occurs in the (already lower-cased) text. */
  predicate Fires(rule: Rule, lower: string) {
    exists k :: 0 <= k < |rule.triggers| && Contains(lower, rule.triggers[k])
  }

  function Contribution(rule: Rule, lower: string): real {
    if Fires(rule, lower) then rule.weight else 0.0
  }

  /** The sum of the weights of the rules that fire. */
  function TableScore(rules: seq<Rule>, lower: string): real {
    if rules == [] then 0.0 else Contribution(rules[0], lower) + TableScore(rules[1..], lower)
  }

  /** The largest score a table can give: every positive rule fires, no negative one does. */
  function PositiveSum(rules: seq<Rule>): (r: real)
    ensures r >= 0.0
  {
    if rules == [] then 0.0
    else (if rules[0].weight > 0.0 then rules[0].weight else 0.0) + PositiveSum(rules[1..])
  }

  /** The smallest score a table can give: every negative rule fires, no positive one does. */
  function NegativeSum(rules: seq<Rule>): real {
    if rules == [] then 0.0
    else (if rules[0].weight < 0.0 then rules[0].weight else 0.0) + NegativeSum(rules[1..])
  }

  predicate AllPositive(rules: seq<Rule>) {
    forall k :: 0 <= k < |rules| ==> rules[k].weight > 0.0
  }

  lemma {:induction false} TableScoreBounds(rules: seq<Rule>, lower: string)
    ensures NegativeSum(rules) <= TableScore(rules, lower) <= PositiveSum(rules)
    decreases |rules|
  {
    if rules != [] {
      TableScoreBounds(rules[1..], lower);
    }
  }

  lemma {:induction false} NegativeSumOfPositive(rules: seq<Rule>)
    requires AllPositive(rules)
    ensures NegativeSum(rules) == 0.0
    decreases |rules|
  {
    if rules != [] {
      assert AllPositive(rules[1..]) by {
        forall k | 0 <= k < |rules[1..]| ensures rules[1..][k].weight > 0.0 {
          assert rules[1..][k] == rules[k + 1];
        }
      }
      NegativeSumOfPositive(rules[1..]);
    }
  }

  /** A table of positive weights never scores below zero. */
  lemma TableScoreNonNegative(rules: seq<Rule>, lower: string)
    requires AllPositive(rules)
    ensures TableScore(rules, lower) >= 0.0
  {
    TableScoreBounds(rules, lower);
    NegativeSumOfPositive(rules);
  }

  lemma {:induction false} TableScoreAppend(a: seq<Rule>, b: seq<Rule>, lower: string)
    ensures TableScore(a + b, lower) == TableScore(a, lower) + TableScore(b, lower)
    decreases |a|
  {
    if a == [] {
      assert a + b == b;
    } else {
      TableScoreAppend(a[1..], b, lower);
      assert (a + b)[1..] == a[1..] + b;
    }
  }

  /**
   * Rules are independent and each adds its weight at most once: the score
   * is the score without rule `k` plus rule `k`'s own contribution, which is
   * its weight or nothing however many of its triggers occur.
   */
  lemma RuleAddsOnce(rules: seq<Rule>, k: nat, lower: string)
    requires k < |rules|
    ensures TableScore(rules, lower)
         == TableScore(rules[..k] + rules[k + 1..], lower) + Contribution(rules[k], lower)
    ensures Contribution(rules[k], lower) == rules[k].weight || Contribution(rules[k], lower) == 0.0
  {
    assert rules == rules[..k] + ([rules[k]] + rules[k + 1..]);
    TableScoreAppend(rules[..k], [rules[k]] + rules[k + 1..], lower);
    TableScoreAppend(rules[..k], rules[k + 1..], lower);
  }

  /** One point per query token found in the text; duplicate tokens count again. */
  function QueryBonus(tokens: seq<string>, lower: string): real {
    if tokens == [] then 0.0
    else (if Contains(lower, tokens[0]) then 1.0 else 0.0) + QueryBonus(tokens[1..], lower)
  }

  /** The bonus is additive over the token list, so a repeated token is counted each time. */
  lemma {:induction false} QueryBonusAppend(a: seq<string>, b: seq<string>, lower: string)
    ensures QueryBonus(a + b, lower) == QueryBonus(a, lower) + QueryBonus(b, lower)
    decreases |a|
  {
    if a == [] {
      assert a + b == b;
    } else {
      QueryBonusAppend(a[1..], b, lower);
      assert (a + b)[1..] == a[1..] + b;
    }
  }

  lemma {:induction false} QueryBonusBounds(tokens: seq<string>, lower: string)
    ensures 0.0 <= QueryBonus(tokens, lower) <= |tokens| as real
    decreases |tokens|
  {
    if tokens != [] {
      QueryBonusBounds(tokens[1..], lower);
    }
  }

  /** An empty leading token is contained in every text, so it always earns its point. */
  lemma EmptyTokenMatches(tokens: seq<string>, lower: string)
    requires tokens != [] && tokens[0] == ""
    ensures QueryBonus(tokens, lower) >= 1.0
  {
    ContainsEmpty(lower);
    QueryBonusBounds(tokens[1..], lower);
  }

  /** Java `calcScoreFromText`: rule weights on the lower-cased text plus the query-token bonus. */
  function TextScore(rules: seq<Rule>, text: string, query: string): real {
    TableScore(rules, ToLower(text)) + QueryBonus(Tokens(ToLower(query)), ToLower(text))
  }

  lemma TextScoreNonNegative(rules: seq<Rule>, text: string, query: string)
    requires AllPositive(rules)
    ensures TextScore(rules, text, query) >= 0.0
  {
    TableScoreNonNegative(rules, ToLower(text));
    QueryBonusBounds(Tokens(ToLower(query)), ToLower(text));
  }
  /** A table none of whose rules fires scores zero. */
  lemma {:induction false} NoRuleFires(rules: seq<Rule>, lower: string)
    requires forall k :: 0 <= k < |rules| ==> !Fires(rules[k], lower)
    ensures TableScore(rules, lower) == 0.0
    decreases |rules|
  {
    if rules != [] {
      assert !Fires(rules[0], lower);
      NoRuleFires(rules[1..], lower);
    }
  }
}
