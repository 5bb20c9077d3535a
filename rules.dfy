/**
 Association rules as the next-website predictor receives them: the rule
 table's rows, the subset test that decides whether a rule fires for a
 browsing history, and the descending ranking of the firing rules by one
 metric column.
 */
module Rules {

  /** The rule column that ranks the predictions. */
  datatype Metric = Confidence | Lift

  /**
   One row of the mined-rules table. In the data `consequents` is a frozen
   set, whose iteration order is unspecified; any fixed order is a faithful
   refinement of it, so it is a sequence here.
   */
  datatype Rule = Rule(antecedents: set<string>, consequents: seq<string>, confidence: real, lift: real)

  /** The value of the chosen metric column in one row. */
  function Score(rule: Rule, metric: Metric): (value: real)
    ensures metric == Confidence ==> value == rule.confidence
    ensures metric == Lift ==> value == rule.lift
  {
    match metric
    case Confidence => rule.confidence
    case Lift => rule.lift
  }

  /** A rule fires when ALL of its antecedents are in the history (a subset test, not an intersection). */
  predicate Fires(rule: Rule, current: set<string>): (fires: bool)
    ensures fires <==> forall site :: site in rule.antecedents ==> site in current
  {
    rule.antecedents <= current
  }

  /** The rows of `rules` that fire for `current`, with their multiplicities: a boolean-mask selection of the table. */
  function Matched(rules: seq<Rule>, current: set<string>): (m: seq<Rule>)
    ensures |m| <= |rules|
    ensures forall rule :: multiset(m)[rule] == if Fires(rule, current) then multiset(rules)[rule] else 0
  {
    if rules == [] then []
    else
      var init, last := rules[..|rules| - 1], rules[|rules| - 1];
      assert rules == init + [last];
      Matched(init, current) + (if Fires(last, current) then [last] else [])
  }

  /** Rows are in non-increasing order of the metric. */
  predicate Descending(ranked: seq<Rule>, metric: Metric)
  {
    forall i, j :: 0 <= i < j < |ranked| ==> Score(ranked[i], metric) >= Score(ranked[j], metric)
  }

  /**
   `ranked` is what a descending sort of `rows` on `metric` may return: a
   permutation of the rows, non-increasing in the metric. The order of rows
   with equal metric values is left open, as the sort used is not stable.
   */
  predicate RankedBy(ranked: seq<Rule>, rows: seq<Rule>, metric: Metric)
  {
    Descending(ranked, metric) && multiset(ranked) == multiset(rows)
  }

  /** Inserts `rule` into a descending sequence, after the rows whose metric is at least its own. */
  function Insert(rule: Rule, ranked: seq<Rule>, metric: Metric): (r: seq<Rule>)
    requires Descending(ranked, metric)
    ensures Descending(r, metric)
    ensures multiset(r) == multiset(ranked) + multiset{rule}
  {
    if ranked == [] then [rule]
    else if Score(ranked[0], metric) >= Score(rule, metric) then
      var rest := Insert(rule, ranked[1..], metric);
      assert ranked == [ranked[0]] + ranked[1..];
      BoundedBy(rule, ranked, rest, metric);
      DescendingCons(ranked[0], rest, metric);
      [ranked[0]] + rest
    else
      [rule] + ranked
  }

  /** Rows drawn from the tail of a descending `ranked` and from a `rule` that scores at most its head all score at most that head. */
  lemma BoundedBy(rule: Rule, ranked: seq<Rule>, rest: seq<Rule>, metric: Metric)
    requires Descending(ranked, metric) && ranked != [] && Score(ranked[0], metric) >= Score(rule, metric)
    requires multiset(rest) == multiset(ranked[1..]) + multiset{rule}
    ensures forall x :: x in rest ==> Score(x, metric) <= Score(ranked[0], metric)
  {
    forall x | x in rest
      ensures Score(x, metric) <= Score(ranked[0], metric)
    {
      assert x in multiset(rest);
      if x != rule {
        assert x in multiset(ranked[1..]);
        var k :| 0 <= k < |ranked[1..]| && ranked[1..][k] == x;
        assert ranked[k + 1] == x;
      }
    }
  }

  /** Putting a row in front of a descending sequence whose rows all score at most that row keeps it descending. */
  lemma DescendingCons(head: Rule, tail: seq<Rule>, metric: Metric)
    requires Descending(tail, metric)
    requires forall x :: x in tail ==> Score(x, metric) <= Score(head, metric)
    ensures Descending([head] + tail, metric)
  {
    var s := [head] + tail;
    forall i, j | 0 <= i < j < |s|
      ensures Score(s[i], metric) >= Score(s[j], metric)
    {
      assert s[j] == tail[j - 1];
      if i > 0 {
        assert s[i] == tail[i - 1];
      }
    }
  }

  /** A descending sort of the rows on `metric` (the model of the table's sort by one column, descending). */
  function SortByMetric(rows: seq<Rule>, metric: Metric): (ranked: seq<Rule>)
    ensures RankedBy(ranked, rows, metric)
  {
    if rows == [] then []
    else
      assert rows == [rows[0]] + rows[1..];
      Insert(rows[0], SortByMetric(rows[1..], metric), metric)
  }

  /** A ranking of the matched rows holds exactly the table's rows that fire. */
  lemma RankedMembers(ranked: seq<Rule>, rules: seq<Rule>, current: set<string>, metric: Metric)
    requires RankedBy(ranked, Matched(rules, current), metric)
    ensures forall rule :: rule in ranked <==> rule in rules && Fires(rule, current)
  {
    var m := Matched(rules, current);
    forall rule
      ensures rule in ranked <==> rule in rules && Fires(rule, current)
    {
      calc {
        rule in ranked;
        multiset(ranked)[rule] > 0;
        multiset(m)[rule] > 0;
        rule in rules && Fires(rule, current);
      }
    }
  }
}
