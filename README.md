# Next-website prediction from association rules

A Dafny model of the rule-based predictor at the heart of the project: the
function `predict_next_websites` in `predict.py`. It takes three inputs:

- the websites in the user's current browsing history;
- a table of mined association rules, each with antecedents, consequents,
  confidence and lift;
- the options `top_n`, `metric` and `show_lift`.

It returns a table of predicted next websites. The model has two modules.

- `Rules` (`rules.dfy`) covers the rule rows and the firing test: all
  antecedents must lie in the history, which is a subset test. `Matched` is
  the boolean-mask selection of the firing rows, with their multiplicities.
  `SortByMetric` is the descending sort on one metric column. It is an
  insertion sort proved to return a permutation of its input that does not
  increase in the metric. `RankedBy` states only those two facts, so it
  admits every tie order an unstable sort may produce.
- `Prediction` (`predict.dfy`) has two parts.
  - A reference definition of the result. `Candidates` is the stream of
    every (website, rule) pair in visiting order. `FirstOccurrences` keeps
    the first row for each website. `TopPredictions` cuts that list to
    `top_n` rows.
  - The method `PredictNextWebsites`, which filters and ranks the rules,
    then hands them to `CollectPredictions`. That method is the nested loop
    with its `seen` set, its `predictions` list and its two
    `len(predictions) == top_n` exits. It is proved to return
    `TopPredictions` of the ranking it walked.

The user-facing guarantees are stated over the rule table itself, for
whatever order the sort gives to tied rows:

- no website appears twice;
- at most `top_n` rows (when `top_n` is positive);
- the metric never increases down the table;
- no firing rule gives an empty result;
- each row comes from a firing rule that names its website, and carries
  that rule's metric value and, when requested, its lift;
- that value is the largest among the firing rules naming the website;
- a website left out scores, on every firing rule naming it, at most every
  row kept;
- when fewer than `top_n` rows come back, every consequent of every firing
  rule is among them.

`top_n` is an unbounded integer with no precondition, as in `predict.py`.
Outside the ordinary case of a positive `top_n` the loop behaves as follows:

- A negative `top_n` never triggers either exit, so every first occurrence
  is returned.
- With `top_n == 0` the inner exit can never trigger, because every visited
  consequent leaves at least one row. The outer exit triggers only if the
  first ranked rule has no consequents. In that case the result is empty;
  otherwise every first occurrence is returned.

`TopPredictions` encodes exactly these cases.

## Model

| member | source | states |
|---|---|---|
| `Rules.Score` | predict.py:46-49 | The metric value of a row is its confidence when ranking by confidence and its lift when ranking by lift. |
| `Rules.Fires` | predict.py:38 | A rule fires exactly when every one of its antecedents is in the history: a subset test, so a rule with no antecedents always fires. |
| `Prediction.CurrentSet` | predict.py:37 | A website is in the history set exactly when it occurs in the history; order and repeats are dropped. |
| `Prediction.MakeEntry` | predict.py:49-51 | A row names the given website and carries the rule's metric value; it carries a lift exactly when `show_lift` holds, and that lift is the rule's. |
| `Rules.Matched` | predict.py:37-38 | The selected rows are exactly the firing rows of the table, each as often as it occurs there; no row whose antecedents are not all in the history is kept. |
| `Rules.Insert` | predict.py:46 | Inserting a row into a descending ranking keeps it descending and adds exactly that row. |
| `Rules.SortByMetric` | predict.py:46 | The descending sort returns a permutation of its rows in non-increasing order of the metric. |
| `Rules.RankedMembers` | predict.py:37-46 | Any descending ranking of the matched rows contains a rule if and only if the table contains it and it fires for the history. |
| `Prediction.FirstOccurrences` | predict.py:47-53 | Keeping the first row per website loses no website: the websites named are those of the whole stream. |
| `Prediction.FirstOccurrencesDistinct` | predict.py:48-53 | The first occurrences name each website once and are all rows of the stream (the role of `seen`). |
| `Prediction.FirstOccurrenceIsFirst` | predict.py:48-53 | Each kept row is the earliest row of the stream naming its website: the first rule to name a site wins. |
| `Prediction.FirstOccurrencesPrefix` | predict.py:46-57 | Stopping early yields a prefix of the full result: the first occurrences of a prefix of the stream are a prefix of the first occurrences of the stream. |
| `Prediction.FirstOccurrencesNonIncreasing` | predict.py:46-53 | Selecting first occurrences keeps a non-increasing stream non-increasing. |
| `Prediction.FirstRuleIndex` | predict.py:46-47 | Gives the position of the first ranked rule whose consequents name a website; no earlier rule names it. |
| `Prediction.FirstWithCandidates` | predict.py:46-51 | In the visiting order, the first row naming a website is the row built from the first rule naming it, and no row names a website that no rule names. |
| `Prediction.CandidateWebsites` | predict.py:46-47 | A website is visited if and only if some ranked rule lists it among its consequents. |
| `Prediction.CandidatesNonIncreasing` | predict.py:46-49 | Visiting rules in descending order yields rows whose metric values never increase. |
| `Prediction.TopPredictions` | predict.py:43-57 | The result names no website twice, has at most `top_n` rows when `top_n` is positive, is empty when no rule matched, and is a prefix of the first occurrences that is all of them whenever its length differs from `top_n`. |
| `Prediction.FirstOccurrencesFirstRule` | predict.py:46-53 | Every first occurrence carries the metric value and (if requested) the lift of the first rule naming its website. |
| `Prediction.FirstOccurrencesBestScore` | predict.py:46-53 | On a descending ranking, every first occurrence scores at least every rule naming its website. |
| `Prediction.TopPredictionsFirstRule` | predict.py:46-53 | Every row of the result comes from the first rule naming its website, with that rule's metric value and lift. |
| `Prediction.TopPredictionsBestScore` | predict.py:46-53 | On a descending ranking, every row's metric value is the best among the rules naming its website. |
| `Prediction.TopPredictionsNonIncreasing` | predict.py:46-53 | On a descending ranking, the result's metric values never increase. |
| `Prediction.TopPredictionsComplete` | predict.py:46-57 | When the result has fewer or more rows than `top_n`, every consequent of every ranked rule is in it. |
| `Prediction.OmittedScoresLower` | predict.py:46-57 | A website left out of the result scores, on a rule naming it, at most a given kept row. |
| `Prediction.TopPredictionsAreBest` | predict.py:46-57 | On a descending ranking the kept rows are the best: any website left out scores at most every kept row on every rule naming it. |
| `Prediction.CollectStep` | predict.py:48-53 | One consequent's step: a site already in `seen` leaves the rows unchanged, a new site appends its row, and `seen` gains the site either way. |
| `Prediction.StopAt` | predict.py:54-57 | A walk that reaches `top_n` rows after some consequent, and then leaves both loops, has returned exactly `TopPredictions`. |
| `Prediction.WalkDone` | predict.py:46-59 | A walk that visits every ranked rule without reaching `top_n` rows has returned exactly `TopPredictions`. |
| `Prediction.RuleGuarantees` | predict.py:36-59 | For any descending ranking of the firing rules, the rows name distinct websites, number at most `top_n`, do not increase, are empty when no rule fires, come from firing rules naming them with their metric and lift, carry the best metric value, and beat any omitted website; when there are not `top_n` of them they cover every consequent of every firing rule. |
| `Prediction.CollectPredictions` | predict.py:43-57 | The nested walk with `seen`, the append of new sites and the two `top_n` exits returns exactly `TopPredictions` of the ranking. |
| `Prediction.PredictNextWebsites` | predict.py:36-59 | The predictor returns `TopPredictions` of some descending ranking of the firing rules, together with every guarantee of `RuleGuarantees` stated over the rule table and the history. |

## Left out

- The Streamlit page is not modelled: its titles, widgets, error messages and the call with `top_n=5`, `show_lift=False` (predict.py:1-33, 61-69). It is user interface and I/O.
- PredictNextWebsites: the default arguments of predict.py:36 (`top_n=5`, `metric='confidence'`, `show_lift=True`) are not modelled, because Dafny methods have no defaults. Callers pass every argument.
- Loading the rule and site tables is not modelled: HTTP download, CSV parsing, and the `eval` of the frozenset columns. They are I/O and foreign code. The rules are a parameter here.
- `frontend.py`, `frontend_combined.py` and `frontend_test.py` are not part of this model. They are other Streamlit front ends around the same idea.
- Results are sequences of `Entry` values, not pandas data frames. This drops column names and the column layout of the empty frame returned when no rule matches, which here is simply no rows. When `metric` is `lift` and `show_lift` holds, `predict.py` writes the same value twice under one key. The model keeps the metric value and the lift in separate fields, which carry the same number.
- `Metric` has only the two columns the predictor is used with, confidence and lift. Sorting on any other column (support, for example) is not modelled, and the support column is not part of `Rule`.
- PredictNextWebsites: the order of rows whose rules tie on the metric is not promised. The sort in `predict.py` is pandas' `sort_values`, whose default algorithm (quicksort) is not stable, so the contract only says that the result is `TopPredictions` of SOME descending ranking of the firing rules. It also does not state that two calls agree on tied rows.
- Consequents are a frozen set in the data, iterated in an unspecified order. They are a sequence here, which fixes one such order.
- Floating-point values are modelled as `real`. NaN metric values, which the sort would place last, are not modelled.
- The walk over the ranked rules is a separate method, `CollectPredictions`, called by `PredictNextWebsites`. The loop itself is the loop of `predict.py`.
