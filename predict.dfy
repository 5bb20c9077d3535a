/**
 The rule-based next-website predictor. Given the websites in a user's
 current history and the mined association rules, it keeps the rules whose
 antecedents all lie in the history, visits them in descending order of one
 metric, and collects the websites their consequents name, the first rule
 to name a website giving that website's row, until `topN` rows are
 collected.

 The specification is a reference definition with a different shape from
 the loop: the stream of every (website, rule) pair in visiting order
 (`Candidates`), the first occurrence of each website in it
 (`FirstOccurrences`), cut to `topN` rows (`TopPredictions`).
 */
module Prediction {
  import opened Rules

  datatype Option<T> = None | Some(value: T)

  /** One row of the prediction table: the website, the ranking metric's value and, when requested, the lift. */
  datatype Entry = Entry(website: string, score: real, lift: Option<real>)

  /** The row that `rule` produces for `site`: the metric value of that rule and, when `showLift` holds, its lift. */
  function MakeEntry(site: string, rule: Rule, metric: Metric, showLift: bool): (e: Entry)
    ensures e.website == site && e.score == Score(rule, metric)
    ensures e.lift.Some? <==> showLift
    ensures e.lift.Some? ==> e.lift.value == rule.lift
  {
    Entry(site, Score(rule, metric), if showLift then Some(rule.lift) else None)
  }

  /** The history as a set: its order and repetitions play no part. */
  function CurrentSet(history: seq<string>): (current: set<string>)
    ensures forall site :: site in current <==> site in history
  {
    set site | site in history
  }

  /** The websites that a sequence of rows names. */
  function Websites(es: seq<Entry>): set<string>
  {
    set e | e in es :: e.website
  }

  /** No website is named twice. */
  predicate Distinct(es: seq<Entry>)
  {
    forall i, j :: 0 <= i < j < |es| ==> es[i].website != es[j].website
  }

  /** The metric values never increase along the rows. */
  predicate NonIncreasing(es: seq<Entry>)
  {
    forall i, j :: 0 <= i < j < |es| ==> es[i].score >= es[j].score
  }

  // ---------------------------------------------------------------------
  // The reference definition
  // ---------------------------------------------------------------------

  /** The rows `rule` would produce for `sites`, one per site, in order. */
  function RuleEntries(sites: seq<string>, rule: Rule, metric: Metric, showLift: bool): (es: seq<Entry>)
    ensures |es| == |sites|
    ensures forall k :: 0 <= k < |es| ==> es[k] == MakeEntry(sites[k], rule, metric, showLift)
  {
    if sites == [] then []
    else RuleEntries(sites[..|sites| - 1], rule, metric, showLift) + [MakeEntry(sites[|sites| - 1], rule, metric, showLift)]
  }

  /** Every (website, rule) pair in visiting order: the rules in the given order, each rule's consequents in order. */
  function Candidates(ranked: seq<Rule>, metric: Metric, showLift: bool): seq<Entry>
  {
    if ranked == [] then []
    else
      var last := ranked[|ranked| - 1];
      Candidates(ranked[..|ranked| - 1], metric, showLift) + RuleEntries(last.consequents, last, metric, showLift)
  }

  /** Appending a row adds its website to the set of websites named. */
  lemma WebsitesSnoc(es: seq<Entry>, e: Entry)
    ensures Websites(es + [e]) == Websites(es) + {e.website}
  {
    forall w | w in Websites(es)
      ensures w in Websites(es + [e])
    {
      var x :| x in es && x.website == w;
      assert x in es + [e];
    }
    assert e in es + [e];
  }

  /** The rows of `es` whose website no earlier row names, in their order: the first occurrence wins. */
  function FirstOccurrences(es: seq<Entry>): (r: seq<Entry>)
    ensures Websites(r) == Websites(es)
  {
    if es == [] then []
    else
      var init, last := es[..|es| - 1], es[|es| - 1];
      assert es == init + [last];
      WebsitesSnoc(init, last);
      WebsitesSnoc(FirstOccurrences(init), last);
      if last.website in Websites(init) then FirstOccurrences(init)
      else FirstOccurrences(init) + [last]
  }

  /** First occurrences name each website once, and are rows of the input. */
  lemma {:induction false} FirstOccurrencesDistinct(es: seq<Entry>)
    ensures Distinct(FirstOccurrences(es))
    ensures forall e :: e in FirstOccurrences(es) ==> e in es
  {
    if es != [] {
      var init, last := es[..|es| - 1], es[|es| - 1];
      assert es == init + [last];
      FirstOccurrencesDistinct(init);
    }
  }

  /**
   What the predictor returns once the matched rules are ranked: the first
   occurrences, cut to `topN` rows when `topN` is positive. The loop tests
   `|predictions| == topN` only after a consequent or after a rule, so a
   non-positive `topN` bounds nothing, except that with `topN == 0` a first
   rule without consequents stops the walk before any row is collected.
   */
  function TopPredictions(ranked: seq<Rule>, topN: int, metric: Metric, showLift: bool): (r: seq<Entry>)
    ensures Distinct(r)
    ensures topN >= 1 ==> |r| <= topN
    ensures ranked == [] ==> r == []
    ensures r <= FirstOccurrences(Candidates(ranked, metric, showLift))
    ensures |r| != topN ==> r == FirstOccurrences(Candidates(ranked, metric, showLift))
  {
    var all := FirstOccurrences(Candidates(ranked, metric, showLift));
    FirstOccurrencesDistinct(Candidates(ranked, metric, showLift));
    if 1 <= topN < |all| then all[..topN]
    else if topN == 0 && ranked != [] && ranked[0].consequents == [] then []
    else all
  }

  // ---------------------------------------------------------------------
  // First occurrences, first rules
  // ---------------------------------------------------------------------

  /** The first row of `es` that names `w`, if any. */
  function FirstWith(es: seq<Entry>, w: string): (r: Option<Entry>)
    ensures r.Some? <==> w in Websites(es)
    ensures r.Some? ==> r.value in es && r.value.website == w
  {
    if es == [] then None
    else if es[0].website == w then Some(es[0])
    else
      assert es == [es[0]] + es[1..];
      FirstWith(es[1..], w)
  }

  /** The position of the first rule in `ranked` whose consequents hold `w`, or `|ranked|` when none does. */
  function FirstRuleIndex(ranked: seq<Rule>, w: string): (q: nat)
    ensures q <= |ranked|
    ensures q < |ranked| ==> w in ranked[q].consequents
    ensures forall k :: 0 <= k < q ==> w !in ranked[k].consequents
  {
    if ranked == [] then 0
    else if w in ranked[0].consequents then 0
    else 1 + FirstRuleIndex(ranked[1..], w)
  }

  /** Adding a rule at the end changes the first rule holding `w` only when no earlier rule holds it. */
  lemma FirstRuleIndexSnoc(init: seq<Rule>, last: Rule, w: string)
    ensures FirstRuleIndex(init + [last], w)
         == if FirstRuleIndex(init, w) < |init| then FirstRuleIndex(init, w)
            else if w in last.consequents then |init| else |init| + 1
  {
    var ranked := init + [last];
    var q0 := FirstRuleIndex(init, w);
    if q0 < |init| {
      assert ranked[q0] == init[q0];
    } else if w in last.consequents {
      assert ranked[|init|] == last;
    }
  }

  /** Looking for the first row naming `w` in a concatenation looks in the first part, then in the second. */
  lemma {:induction false} FirstWithAppend(a: seq<Entry>, b: seq<Entry>, w: string)
    ensures FirstWith(a + b, w) == if FirstWith(a, w).Some? then FirstWith(a, w) else FirstWith(b, w)
  {
    if a != [] {
      assert (a + b)[0] == a[0];
      assert (a + b)[1..] == a[1..] + b;
      FirstWithAppend(a[1..], b, w);
    } else {
      assert a + b == b;
    }
  }

  /** Extending a sequence of rows by one row adds that row exactly when its website is new. */
  lemma FirstOccurrencesSnoc(es: seq<Entry>, e: Entry)
    ensures FirstOccurrences(es + [e]) == FirstOccurrences(es) + (if e.website in Websites(es) then [] else [e])
  {
    assert (es + [e])[..|es|] == es;
  }

  /** One step of the collection loop: a new website is appended and remembered, a website seen before is skipped. */
  lemma CollectStep(es: seq<Entry>, predictions: seq<Entry>, seen: set<string>, e: Entry)
    requires predictions == FirstOccurrences(es) && seen == Websites(predictions)
    ensures FirstOccurrences(es + [e]) == if e.website in seen then predictions else predictions + [e]
    ensures Websites(FirstOccurrences(es + [e])) == seen + {e.website}
  {
    FirstOccurrencesSnoc(es, e);
    WebsitesSnoc(predictions, e);
  }

  /** Each row that `FirstOccurrences` keeps is the first row of its input naming that website. */
  lemma {:induction false} FirstOccurrenceIsFirst(es: seq<Entry>)
    ensures forall e :: e in FirstOccurrences(es) ==> FirstWith(es, e.website) == Some(e)
  {
    if es != [] {
      var init, last := es[..|es| - 1], es[|es| - 1];
      assert es == init + [last];
      FirstOccurrenceIsFirst(init);
      forall e | e in FirstOccurrences(es)
        ensures FirstWith(es, e.website) == Some(e)
      {
        FirstWithAppend(init, [last], e.website);
        if e in FirstOccurrences(init) {
          assert e in init;
        } else {
          assert e == last && last.website !in Websites(init);
          assert FirstWith([last], e.website) == Some(last);
        }
      }
    }
  }

  /** Collecting first occurrences of a prefix gives a prefix of the first occurrences of the whole. */
  lemma {:induction false} FirstOccurrencesPrefix(p: seq<Entry>, s: seq<Entry>)
    requires p <= s
    ensures FirstOccurrences(p) <= FirstOccurrences(s)
    decreases |s|
  {
    if |p| < |s| {
      var init := s[..|s| - 1];
      assert p <= init;
      FirstOccurrencesPrefix(p, init);
      assert s == init + [s[|s| - 1]];
      FirstOccurrencesSnoc(init, s[|s| - 1]);
    } else {
      assert p == s;
    }
  }

  /** Keeping first occurrences keeps a non-increasing order. */
  lemma {:induction false} FirstOccurrencesNonIncreasing(es: seq<Entry>)
    requires NonIncreasing(es)
    ensures NonIncreasing(FirstOccurrences(es))
  {
    if es != [] {
      var init, last := es[..|es| - 1], es[|es| - 1];
      assert es == init + [last];
      FirstOccurrencesNonIncreasing(init);
      FirstOccurrencesDistinct(init);
      forall e | e in FirstOccurrences(init)
        ensures e.score >= last.score
      {
        assert e in init;
      }
    }
  }

  /** The first row naming `w` among one rule's rows is that rule's row for `w`, when `w` is a consequent of it. */
  lemma {:induction false} FirstWithRuleEntries(sites: seq<string>, rule: Rule, metric: Metric, showLift: bool, w: string)
    ensures FirstWith(RuleEntries(sites, rule, metric, showLift), w)
         == if w in sites then Some(MakeEntry(w, rule, metric, showLift)) else None
  {
    if sites != [] {
      var init, last := sites[..|sites| - 1], sites[|sites| - 1];
      assert sites == init + [last];
      FirstWithRuleEntries(init, rule, metric, showLift, w);
      FirstWithAppend(RuleEntries(init, rule, metric, showLift), [MakeEntry(last, rule, metric, showLift)], w);
    }
  }

  /**
   The first row naming `w` in the candidate stream is the row of the first
   rule, in visiting order, whose consequents hold `w`.
   */
  lemma {:induction false} FirstWithCandidates(ranked: seq<Rule>, metric: Metric, showLift: bool, w: string)
    ensures FirstWith(Candidates(ranked, metric, showLift), w)
         == if FirstRuleIndex(ranked, w) < |ranked|
            then Some(MakeEntry(w, ranked[FirstRuleIndex(ranked, w)], metric, showLift))
            else None
  {
    if ranked != [] {
      var init, last := ranked[..|ranked| - 1], ranked[|ranked| - 1];
      FirstWithCandidates(init, metric, showLift, w);
      FirstWithAppend(Candidates(init, metric, showLift), RuleEntries(last.consequents, last, metric, showLift), w);
      FirstWithRuleEntries(last.consequents, last, metric, showLift, w);
      assert ranked == init + [last];
      FirstRuleIndexSnoc(init, last, w);
    }
  }

  /** A website is in the candidate stream exactly when some rule's consequents hold it. */
  lemma CandidateWebsites(ranked: seq<Rule>, metric: Metric, showLift: bool, w: string)
    ensures w in Websites(Candidates(ranked, metric, showLift)) <==> exists q :: 0 <= q < |ranked| && w in ranked[q].consequents
  {
    FirstWithCandidates(ranked, metric, showLift, w);
  }

  /** On descending rules the candidate stream is non-increasing, and no row scores below the last rule. */
  lemma {:induction false} CandidatesNonIncreasing(ranked: seq<Rule>, metric: Metric, showLift: bool)
    requires Descending(ranked, metric)
    ensures NonIncreasing(Candidates(ranked, metric, showLift))
    ensures ranked != [] ==> forall e :: e in Candidates(ranked, metric, showLift) ==> e.score >= Score(ranked[|ranked| - 1], metric)
  {
    if ranked != [] {
      var init, last := ranked[..|ranked| - 1], ranked[|ranked| - 1];
      CandidatesNonIncreasing(init, metric, showLift);
      var c0, tail := Candidates(init, metric, showLift), RuleEntries(last.consequents, last, metric, showLift);
      assert Candidates(ranked, metric, showLift) == c0 + tail;
      forall e | e in c0
        ensures e.score >= Score(last, metric)
      {
        assert init != [];
        assert init[|init| - 1] == ranked[|ranked| - 2];
      }
    }
  }

  // ---------------------------------------------------------------------
  // What the predictor promises, for any ranking of the matched rules
  // ---------------------------------------------------------------------

  /**
   Every first occurrence in the candidate stream comes from the first rule,
   in visiting order, whose consequents name its website, and carries that
   rule's metric value and lift.
   */
  lemma FirstOccurrencesFirstRule(ranked: seq<Rule>, metric: Metric, showLift: bool)
    ensures forall e :: e in FirstOccurrences(Candidates(ranked, metric, showLift)) ==>
      FirstRuleIndex(ranked, e.website) < |ranked| &&
      e == MakeEntry(e.website, ranked[FirstRuleIndex(ranked, e.website)], metric, showLift)
  {
    var c := Candidates(ranked, metric, showLift);
    FirstOccurrenceIsFirst(c);
    forall e | e in FirstOccurrences(c)
      ensures FirstRuleIndex(ranked, e.website) < |ranked|
      ensures e == MakeEntry(e.website, ranked[FirstRuleIndex(ranked, e.website)], metric, showLift)
    {
      FirstWithCandidates(ranked, metric, showLift, e.website);
    }
  }

  /** On descending rules, each first occurrence carries the largest metric value among the rules that name its website. */
  lemma FirstOccurrencesBestScore(ranked: seq<Rule>, metric: Metric, showLift: bool)
    requires Descending(ranked, metric)
    ensures forall e, q :: e in FirstOccurrences(Candidates(ranked, metric, showLift)) && 0 <= q < |ranked| && e.website in ranked[q].consequents ==>
      Score(ranked[q], metric) <= e.score
  {
    FirstOccurrencesFirstRule(ranked, metric, showLift);
  }

  /**
   Every row comes from the first rule, in visiting order, whose consequents
   name its website, and carries that rule's metric value and lift.
   */
  lemma TopPredictionsFirstRule(ranked: seq<Rule>, topN: int, metric: Metric, showLift: bool)
    ensures forall e :: e in TopPredictions(ranked, topN, metric, showLift) ==>
      FirstRuleIndex(ranked, e.website) < |ranked| &&
      e == MakeEntry(e.website, ranked[FirstRuleIndex(ranked, e.website)], metric, showLift)
  {
    FirstOccurrencesFirstRule(ranked, metric, showLift);
  }

  /** On descending rules, each row carries the largest metric value among the rules that name its website. */
  lemma TopPredictionsBestScore(ranked: seq<Rule>, topN: int, metric: Metric, showLift: bool)
    requires Descending(ranked, metric)
    ensures forall e, q :: e in TopPredictions(ranked, topN, metric, showLift) && 0 <= q < |ranked| && e.website in ranked[q].consequents ==>
      Score(ranked[q], metric) <= e.score
  {
    FirstOccurrencesBestScore(ranked, metric, showLift);
  }

  /** On descending rules the rows come in non-increasing order of the metric. */
  lemma TopPredictionsNonIncreasing(ranked: seq<Rule>, topN: int, metric: Metric, showLift: bool)
    requires Descending(ranked, metric)
    ensures NonIncreasing(TopPredictions(ranked, topN, metric, showLift))
  {
    CandidatesNonIncreasing(ranked, metric, showLift);
    FirstOccurrencesNonIncreasing(Candidates(ranked, metric, showLift));
  }

  /** Unless the walk stopped at `topN` rows, every consequent of every visited rule is among the rows. */
  lemma TopPredictionsComplete(ranked: seq<Rule>, topN: int, metric: Metric, showLift: bool)
    ensures |TopPredictions(ranked, topN, metric, showLift)| != topN ==>
      forall q, site :: 0 <= q < |ranked| && site in ranked[q].consequents ==>
        site in Websites(TopPredictions(ranked, topN, metric, showLift))
  {
    forall q, site | 0 <= q < |ranked| && site in ranked[q].consequents
      ensures site in Websites(Candidates(ranked, metric, showLift))
    {
      CandidateWebsites(ranked, metric, showLift, site);
    }
  }

  /** One instance of `TopPredictionsAreBest`: row `k` against a left-out `site` named by rule `q`. */
  lemma OmittedScoresLower(ranked: seq<Rule>, topN: int, metric: Metric, showLift: bool, k: nat, q: nat, site: string)
    requires Descending(ranked, metric)
    requires k < |TopPredictions(ranked, topN, metric, showLift)|
    requires q < |ranked| && site in ranked[q].consequents
    requires site !in Websites(TopPredictions(ranked, topN, metric, showLift))
    ensures Score(ranked[q], metric) <= TopPredictions(ranked, topN, metric, showLift)[k].score
  {
    var c := Candidates(ranked, metric, showLift);
    var all := FirstOccurrences(c);
    var r := TopPredictions(ranked, topN, metric, showLift);
    assert r[k] == all[k];
    CandidateWebsites(ranked, metric, showLift, site);
    var p :| 0 <= p < |all| && all[p].website == site;
    forall p' | 0 <= p' < |r|
      ensures r[p'].website != site
    {
      assert r[p'] in r;
    }
    CandidatesNonIncreasing(ranked, metric, showLift);
    FirstOccurrencesNonIncreasing(c);
    assert all[k].score >= all[p].score;
    FirstOccurrencesBestScore(ranked, metric, showLift);
    assert all[p] in all;
  }

  /**
   On descending rules the rows are the best ones: a consequent left out of
   the result scores, on every rule that names it, at most every row kept.
   */
  lemma TopPredictionsAreBest(ranked: seq<Rule>, topN: int, metric: Metric, showLift: bool)
    requires Descending(ranked, metric)
    ensures forall e, q, site ::
      e in TopPredictions(ranked, topN, metric, showLift) && 0 <= q < |ranked| && site in ranked[q].consequents &&
      site !in Websites(TopPredictions(ranked, topN, metric, showLift)) ==>
        Score(ranked[q], metric) <= e.score
  {
    var r := TopPredictions(ranked, topN, metric, showLift);
    forall e, q, site | e in r && 0 <= q < |ranked| && site in ranked[q].consequents && site !in Websites(r)
      ensures Score(ranked[q], metric) <= e.score
    {
      var k :| 0 <= k < |r| && r[k] == e;
      OmittedScoresLower(ranked, topN, metric, showLift, k, q, site);
    }
  }

  // ---------------------------------------------------------------------
  // The predictor
  // ---------------------------------------------------------------------

  /** The candidate stream of the first `i + 1` rules is that of the first `i` followed by rule `i`'s rows. */
  lemma CandidatesStep(ranked: seq<Rule>, i: nat, metric: Metric, showLift: bool)
    requires i < |ranked|
    ensures Candidates(ranked[..i + 1], metric, showLift)
         == Candidates(ranked[..i], metric, showLift) + RuleEntries(ranked[i].consequents, ranked[i], metric, showLift)
  {
    assert ranked[..i + 1][..i] == ranked[..i];
  }

  /** The candidate stream of the first `i` rules is a prefix of the whole stream. */
  lemma {:induction false} CandidatesPrefix(ranked: seq<Rule>, i: nat, metric: Metric, showLift: bool)
    requires i <= |ranked|
    ensures Candidates(ranked[..i], metric, showLift) <= Candidates(ranked, metric, showLift)
    decreases |ranked| - i
  {
    if i < |ranked| {
      CandidatesPrefix(ranked, i + 1, metric, showLift);
      CandidatesStep(ranked, i, metric, showLift);
    } else {
      assert ranked[..i] == ranked;
    }
  }

  /** The part of the stream visited up to consequent `j` of rule `i`. */
  function Visited(ranked: seq<Rule>, i: nat, j: nat, metric: Metric, showLift: bool): seq<Entry>
    requires i < |ranked| && j <= |ranked[i].consequents|
  {
    Candidates(ranked[..i], metric, showLift) + RuleEntries(ranked[i].consequents[..j], ranked[i], metric, showLift)
  }

  /** Visiting consequent `j` of rule `i` appends that consequent's row to the visited part. */
  lemma VisitedStep(ranked: seq<Rule>, i: nat, j: nat, metric: Metric, showLift: bool)
    requires i < |ranked| && j < |ranked[i].consequents|
    ensures Visited(ranked, i, j + 1, metric, showLift)
         == Visited(ranked, i, j, metric, showLift) + [MakeEntry(ranked[i].consequents[j], ranked[i], metric, showLift)]
  {
    var sites := ranked[i].consequents;
    assert sites[..j + 1][..j] == sites[..j];
  }

  /** Before its first consequent, rule `i` has added nothing to the visited part. */
  lemma VisitedStart(ranked: seq<Rule>, i: nat, metric: Metric, showLift: bool)
    requires i < |ranked|
    ensures Visited(ranked, i, 0, metric, showLift) == Candidates(ranked[..i], metric, showLift)
  {
    assert ranked[i].consequents[..0] == [];
  }

  /** Once all of rule `i` is visited, the visited part is the stream of the first `i + 1` rules. */
  lemma VisitedComplete(ranked: seq<Rule>, i: nat, metric: Metric, showLift: bool)
    requires i < |ranked|
    ensures Visited(ranked, i, |ranked[i].consequents|, metric, showLift) == Candidates(ranked[..i + 1], metric, showLift)
  {
    CandidatesStep(ranked, i, metric, showLift);
    assert ranked[i].consequents[..|ranked[i].consequents|] == ranked[i].consequents;
  }

  /** The part visited up to consequent `j` of rule `i` is a prefix of the whole stream. */
  lemma VisitedPrefix(ranked: seq<Rule>, i: nat, j: nat, metric: Metric, showLift: bool)
    requires i < |ranked| && j <= |ranked[i].consequents|
    ensures Visited(ranked, i, j, metric, showLift) <= Candidates(ranked, metric, showLift)
  {
    var sites := ranked[i].consequents;
    VisitedComplete(ranked, i, metric, showLift);
    CandidatesPrefix(ranked, i + 1, metric, showLift);
    RuleEntriesPrefix(sites, j, ranked[i], metric, showLift);
    AppendPrefix(Candidates(ranked[..i], metric, showLift), RuleEntries(sites, ranked[i], metric, showLift), j);
  }

  /** Appending a prefix of `b` gives a prefix of appending all of `b`. */
  lemma AppendPrefix(a: seq<Entry>, b: seq<Entry>, j: nat)
    requires j <= |b|
    ensures a + b[..j] <= a + b
  {
    assert a + b[..j] == (a + b)[..|a| + j];
  }

  /** The rows of the first `j` sites are the first `j` rows. */
  lemma RuleEntriesPrefix(sites: seq<string>, j: nat, rule: Rule, metric: Metric, showLift: bool)
    requires j <= |sites|
    ensures RuleEntries(sites[..j], rule, metric, showLift) == RuleEntries(sites, rule, metric, showLift)[..j]
  {
  }

  /**
   A walk that stops with `topN` rows after consequent `j` of rule `i` has
   returned `TopPredictions`: for a positive `topN` the rows are the first
   `topN` first occurrences; for `topN == 0` nothing was visited, so the
   first rule has no consequents.
   */
  lemma StopAt(ranked: seq<Rule>, i: nat, j: nat, topN: int, metric: Metric, showLift: bool)
    requires i < |ranked| && j <= |ranked[i].consequents|
    requires |FirstOccurrences(Visited(ranked, i, j, metric, showLift))| == topN
    requires j == |ranked[i].consequents| || j > 0
    ensures FirstOccurrences(Visited(ranked, i, j, metric, showLift)) == TopPredictions(ranked, topN, metric, showLift)
  {
    if topN == 0 {
      StopBeforeAnyRow(ranked, i, j, metric, showLift);
    } else {
      VisitedPrefix(ranked, i, j, metric, showLift);
      StopWithRows(Visited(ranked, i, j, metric, showLift), ranked, topN, metric, showLift);
    }
  }

  /** Once the first occurrences of a visited prefix reach a positive `topN`, they are `TopPredictions`. */
  lemma StopWithRows(v: seq<Entry>, ranked: seq<Rule>, topN: int, metric: Metric, showLift: bool)
    requires v <= Candidates(ranked, metric, showLift)
    requires topN >= 1 && |FirstOccurrences(v)| == topN
    ensures FirstOccurrences(v) == TopPredictions(ranked, topN, metric, showLift)
  {
    FirstOccurrencesPrefix(v, Candidates(ranked, metric, showLift));
  }

  /** A walk that stops with no row at consequent `j` of rule `i` found a first rule without consequents. */
  lemma StopBeforeAnyRow(ranked: seq<Rule>, i: nat, j: nat, metric: Metric, showLift: bool)
    requires i < |ranked| && j <= |ranked[i].consequents|
    requires FirstOccurrences(Visited(ranked, i, j, metric, showLift)) == []
    requires j == |ranked[i].consequents| || j > 0
    ensures FirstOccurrences(Visited(ranked, i, j, metric, showLift)) == TopPredictions(ranked, 0, metric, showLift)
  {
    var v := Visited(ranked, i, j, metric, showLift);
    assert v == [];
    VisitedComplete(ranked, i, metric, showLift);
    CandidatesPrefix(ranked[..i + 1], 1, metric, showLift);
    assert ranked[..i + 1][..1] == ranked[..1];
    CandidatesStep(ranked, 0, metric, showLift);
    assert ranked[..0] == [];
  }

  /** A walk that visited every rule without stopping has returned `TopPredictions`. */
  lemma WalkDone(ranked: seq<Rule>, topN: int, metric: Metric, showLift: bool)
    requires ranked != []
    requires topN >= 1 ==> |FirstOccurrences(Candidates(ranked[..|ranked|], metric, showLift))| < topN
    requires topN == 0 ==> ranked[0].consequents != []
    ensures FirstOccurrences(Candidates(ranked[..|ranked|], metric, showLift)) == TopPredictions(ranked, topN, metric, showLift)
  {
    assert ranked[..|ranked|] == ranked;
  }

  /**
   What `TopPredictions` promises about the rule table itself, for any
   descending ranking of the rules that fire for `current`.
   */
  lemma RuleGuarantees(rules: seq<Rule>, current: set<string>, ranked: seq<Rule>, topN: int, metric: Metric, showLift: bool)
    requires RankedBy(ranked, Matched(rules, current), metric)
    ensures var r := TopPredictions(ranked, topN, metric, showLift);
      && Distinct(r)
      && (topN >= 1 ==> |r| <= topN)
      && NonIncreasing(r)
      && ((forall rule :: rule in rules ==> !Fires(rule, current)) ==> r == [])
      && (forall e :: e in r ==>
            exists rule :: rule in rules && Fires(rule, current) && e.website in rule.consequents &&
              e == MakeEntry(e.website, rule, metric, showLift))
      && (forall e, rule :: e in r && rule in rules && Fires(rule, current) && e.website in rule.consequents ==>
            Score(rule, metric) <= e.score)
      && (forall e, rule, site ::
            e in r && rule in rules && Fires(rule, current) && site in rule.consequents && site !in Websites(r) ==>
              Score(rule, metric) <= e.score)
      && (|r| != topN ==>
            forall rule, site :: rule in rules && Fires(rule, current) && site in rule.consequents ==> site in Websites(r))
  {
    RankedMembers(ranked, rules, current, metric);
    TopPredictionsFirstRule(ranked, topN, metric, showLift);
    TopPredictionsBestScore(ranked, topN, metric, showLift);
    TopPredictionsNonIncreasing(ranked, topN, metric, showLift);
    TopPredictionsComplete(ranked, topN, metric, showLift);
    TopPredictionsAreBest(ranked, topN, metric, showLift);
  }

  /**
   The walk over the ranked rules: each consequent not seen before becomes a
   row carrying its rule's metric value (and lift), and the walk stops, after
   a consequent or after a rule, as soon as there are `topN` rows.
   */
  method CollectPredictions(ranked: seq<Rule>, topN: int, metric: Metric, showLift: bool) returns (predictions: seq<Entry>)
    requires ranked != []
    ensures predictions == TopPredictions(ranked, topN, metric, showLift)
  {
    predictions := [];
    var seen: set<string> := {};
    var i := 0;
    while i < |ranked|
      invariant 0 <= i <= |ranked|
      invariant predictions == FirstOccurrences(Candidates(ranked[..i], metric, showLift))
      invariant seen == Websites(predictions)
      invariant topN >= 1 ==> |predictions| < topN
      invariant topN == 0 && i > 0 ==> ranked[0].consequents != []
    {
      var row := ranked[i];
      var j := 0;
      ghost var k := 0;  // consequents of `row` visited, counting the one a break stops at
      VisitedStart(ranked, i, metric, showLift);
      while j < |row.consequents|
        invariant 0 <= j <= |row.consequents| && k == j
        invariant predictions == FirstOccurrences(Visited(ranked, i, j, metric, showLift))
        invariant seen == Websites(predictions)
        invariant topN >= 1 ==> |predictions| < topN
      {
        ghost var before := |predictions|;
        var site := row.consequents[j];
        var entry := MakeEntry(site, row, metric, showLift);
        VisitedStep(ranked, i, j, metric, showLift);
        CollectStep(Visited(ranked, i, j, metric, showLift), predictions, seen, entry);
        if site !in seen {
          predictions := predictions + [entry];
          seen := seen + {site};
        }
        assert |predictions| <= before + 1;
        k := j + 1;
        assert predictions == FirstOccurrences(Visited(ranked, i, k, metric, showLift));
        if |predictions| == topN {
          break;
        }
        j := j + 1;
      }
      assert predictions == FirstOccurrences(Visited(ranked, i, k, metric, showLift));
      if |predictions| == topN {
        StopAt(ranked, i, k, topN, metric, showLift);
        break;
      }
      VisitedComplete(ranked, i, metric, showLift);
      assert predictions == FirstOccurrences(Candidates(ranked[..i + 1], metric, showLift));
      i := i + 1;
      assert predictions == FirstOccurrences(Candidates(ranked[..i], metric, showLift));
    }
    if i == |ranked| {
      WalkDone(ranked, topN, metric, showLift);
    }
  }

  /**
   predict_next_websites: keep the rules that fire for the history, visit
   them in descending order of `metric` and collect each website the first
   time a consequent names it, stopping as soon as `topN` rows are collected.
   */
  method PredictNextWebsites(history: seq<string>, rules: seq<Rule>, topN: int, metric: Metric, showLift: bool)
    returns (predictions: seq<Entry>)
    ensures exists ranked ::
      RankedBy(ranked, Matched(rules, CurrentSet(history)), metric) &&
      predictions == TopPredictions(ranked, topN, metric, showLift)
    ensures Distinct(predictions)
    ensures topN >= 1 ==> |predictions| <= topN
    ensures NonIncreasing(predictions)
    ensures (forall rule :: rule in rules ==> !Fires(rule, CurrentSet(history))) ==> predictions == []
    ensures forall e :: e in predictions ==>
      exists rule :: rule in rules && Fires(rule, CurrentSet(history)) && e.website in rule.consequents &&
        e == MakeEntry(e.website, rule, metric, showLift)
    ensures forall e, rule :: e in predictions && rule in rules && Fires(rule, CurrentSet(history)) && e.website in rule.consequents ==>
      Score(rule, metric) <= e.score
    ensures forall e, rule, site ::
      e in predictions && rule in rules && Fires(rule, CurrentSet(history)) && site in rule.consequents && site !in Websites(predictions) ==>
        Score(rule, metric) <= e.score
    ensures |predictions| != topN ==>
      forall rule, site :: rule in rules && Fires(rule, CurrentSet(history)) && site in rule.consequents ==> site in Websites(predictions)
  {
    var current := CurrentSet(history);
    var matched := Matched(rules, current);
    var ranked := SortByMetric(matched, metric);
    if |matched| == 0 {
      predictions := [];
    } else {
      predictions := CollectPredictions(ranked, topN, metric, showLift);
    }
    RuleGuarantees(rules, current, ranked, topN, metric, showLift);
  }
}
