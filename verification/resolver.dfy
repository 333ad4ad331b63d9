/** The structured side of a query (`query_structured_data`): the lower-cased
    question is tested against six phrase rules in a fixed order, and the
    first rule that fires alone decides which `metric_table` rows answer it. */
module Resolver {
  import opened Wrappers
  import opened Seqs
  import opened Text
  import opened Records
  import opened Periods

  /** The six question kinds, one per branch of the `if/elif` chain. */
  datatype Intent =
    | ProfitTrend         // "trend" and "net profit"
    | MarginEvolution     // "margin" and "evolved"
    | MarginDecrease      // "ebitda margin decrease"
    | RevenueTrend        // "revenue trend"
    | ExpenseBreakdown    // "expense breakdown"
    | InternationalShare  // "international revenue"

  /** The order in which the branches are tried. */
  const Chain: seq<Intent> :=
    [ProfitTrend, MarginEvolution, MarginDecrease, RevenueTrend, ExpenseBreakdown, InternationalShare]

  /** The phrase test of intent `i` on the lower-cased question `q`. */
  predicate Holds(i: Intent, q: string) {
    match i
    case ProfitTrend => Contains(q, "trend") && Contains(q, "net profit")
    case MarginEvolution => Contains(q, "margin") && Contains(q, "evolved")
    case MarginDecrease => Contains(q, "ebitda margin decrease")
    case RevenueTrend => Contains(q, "revenue trend")
    case ExpenseBreakdown => Contains(q, "expense breakdown")
    case InternationalShare => Contains(q, "international revenue")
  }

  /** The branch the chain enters for `q`: the first intent of `Chain` whose
      test holds, or none. */
  function Classify(q: string): (r: Option<Intent>)
    ensures r.Some? ==> Holds(r.value, q)
    ensures r.None? <==> forall i: Intent :: !Holds(i, q)
  {
    if Holds(ProfitTrend, q) then Some(ProfitTrend)
    else if Holds(MarginEvolution, q) then Some(MarginEvolution)
    else if Holds(MarginDecrease, q) then Some(MarginDecrease)
    else if Holds(RevenueTrend, q) then Some(RevenueTrend)
    else if Holds(ExpenseBreakdown, q) then Some(ExpenseBreakdown)
    else if Holds(InternationalShare, q) then Some(InternationalShare)
    else None
  }

  /** The branch entered is the first of `Chain` whose test holds: intent
      `Chain[k]` is chosen exactly when its test holds and no earlier one
      does. */
  lemma ClassifyFirstInChain(q: string)
    ensures forall k | 0 <= k < |Chain| ::
      Classify(q) == Some(Chain[k]) <==> Holds(Chain[k], q) && forall j | 0 <= j < k :: !Holds(Chain[j], q)
  {
    forall k | 0 <= k < |Chain|
      ensures Classify(q) == Some(Chain[k]) <==> Holds(Chain[k], q) && forall j | 0 <= j < k :: !Holds(Chain[j], q)
    {
      ClassifyAt(q, k);
    }
  }

  lemma ClassifyAt(q: string, k: nat)
    requires k < |Chain|
    ensures Classify(q) == Some(Chain[k]) <==> Holds(Chain[k], q) && forall j | 0 <= j < k :: !Holds(Chain[j], q)
  {
    assert Chain[0] == ProfitTrend && Chain[1] == MarginEvolution && Chain[2] == MarginDecrease;
    assert Chain[3] == RevenueTrend && Chain[4] == ExpenseBreakdown && Chain[5] == InternationalShare;
  }

  /** The intents answered by one metric's rows over time. */
  predicate IsSeries(i: Intent) {
    i != MarginDecrease && i != ExpenseBreakdown
  }

  /** The `metric_name` each intent reads; the breakdown reads by category
      and has none. */
  function MetricOf(i: Intent): string
    requires i != ExpenseBreakdown
  {
    match i
    case ProfitTrend => "PAT"
    case MarginEvolution => "EBITDA Margin"
    case MarginDecrease => "EBITDA Margin"
    case RevenueTrend => "Revenue from Operations"
    case InternationalShare => "International Revenue Share"
  }

  const ExpenseCategory: string := "Expense"

  /** `SELECT ... WHERE metric_name = name ORDER BY year, quarter`. */
  function MetricSeries(t: Table, name: string): (r: seq<Record>)
    ensures forall k | 0 <= k < |r| :: r[k].metricName == name
  {
    var rows := Filter(t, (x: Record) => x.metricName == name);
    var r := SortByPeriod(rows);
    assert forall k | 0 <= k < |r| :: r[k] in rows by {
      forall k | 0 <= k < |r| ensures r[k] in rows {
        assert r[k] in multiset(r);
      }
    }
    r
  }

  /** The series is in period order and holds exactly the rows of the
      metric, each as often as the table holds it. */
  lemma MetricSeriesSpec(t: Table, name: string)
    ensures Sorted(MetricSeries(t, name))
    ensures forall x :: x in MetricSeries(t, name) <==> x in t && x.metricName == name
    ensures forall x: Record | x.metricName == name :: multiset(MetricSeries(t, name))[x] == multiset(t)[x]
  {
    var rows := Filter(t, (x: Record) => x.metricName == name);
    FilterMultiset(t, (x: Record) => x.metricName == name);
    var r := SortByPeriod(rows);
    assert forall x :: x in r <==> x in multiset(rows);
  }

  /** `SELECT ... WHERE category = "Expense" AND quarter = (SELECT MAX(quarter)
      FROM metric_table)`, in table order. The latest quarter is taken over
      all rows, not only the expense rows. */
  function ExpenseRows(t: Table): (r: seq<Record>)
    ensures forall k | 0 <= k < |r| :: r[k].category == ExpenseCategory && r[k] in t
  {
    var m := MaxQuarter(t);
    if m.None? then []
    else Filter(t, (x: Record) => x.category == ExpenseCategory && x.quarter == m.value)
  }

  /** A row is listed exactly when it is an expense row of the table whose
      quarter is no smaller than any quarter of the table. */
  lemma ExpenseRowsSpec(t: Table)
    ensures forall x :: x in ExpenseRows(t) <==>
      x in t && x.category == ExpenseCategory && forall y | y in t :: StrLe(y.quarter, x.quarter)
  {
    var m := MaxQuarter(t);
    if m.Some? {
      var r := ExpenseRows(t);
      forall x ensures x in r <==>
        x in t && x.category == ExpenseCategory && forall y | y in t :: StrLe(y.quarter, x.quarter) {
        if x in t && x.category == ExpenseCategory && forall y | y in t :: StrLe(y.quarter, x.quarter) {
          var i :| 0 <= i < |t| && t[i].quarter == m.value;
          assert StrLe(t[i].quarter, x.quarter);
          var k :| 0 <= k < |t| && t[k] == x;
          StrLeAntisymmetric(x.quarter, m.value);
        }
        if x in r {
          forall y | y in t ensures StrLe(y.quarter, x.quarter) {
            var k :| 0 <= k < |t| && t[k] == y;
          }
        }
      }
    }
  }

  /** A structured answer: a metric's rows over time, the two latest EBITDA
      margins when the latest is the lower, or the latest quarter's expenses. */
  datatype Structured =
    | Series(intent: Intent, rows: seq<Record>)
    | Decrease(previous: Record, latest: Record)
    | Breakdown(rows: seq<Record>)

  /** The pair `query_structured_data` returns: the answer (None when no
      branch produced one) and the follow-up questions to search the text for. */
  datatype Resolution = Resolution(answer: Option<Structured>, followUps: seq<string>)

  const NoAnswer: Resolution := Resolution(None, [])

  /** The follow-up question asked about the quarter of a margin decrease. */
  function WhyQuestion(quarter: string): string {
    "why " + quarter
  }

  /** The body of the branch for intent `i`. A branch whose query finds
      nothing (or, for the decrease, no decrease) answers nothing. */
  function Answer(i: Intent, t: Table): (r: Resolution)
    ensures r.followUps != [] ==> r.answer.Some? && r.answer.value.Decrease?
    ensures r.answer.Some? && r.answer.value.Decrease? ==>
      r.followUps == [WhyQuestion(r.answer.value.latest.quarter)]
    ensures r.answer.Some? && r.answer.value.Series? ==>
      IsSeries(i) && r.answer.value.intent == i && r.answer.value.rows != []
    ensures r.answer.Some? && r.answer.value.Breakdown? ==>
      i == ExpenseBreakdown && r.answer.value.rows != []
    ensures r.answer.Some? && r.answer.value.Decrease? ==> i == MarginDecrease
  {
    match i
    case MarginDecrease =>
      var rows := MetricSeries(t, MetricOf(MarginDecrease));
      if |rows| >= 2 && rows[|rows| - 1].value < rows[|rows| - 2].value then
        var latest := rows[|rows| - 1];
        Resolution(Some(Decrease(rows[|rows| - 2], latest)), [WhyQuestion(latest.quarter)])
      else NoAnswer
    case ExpenseBreakdown =>
      var rows := ExpenseRows(t);
      if rows != [] then Resolution(Some(Breakdown(rows)), []) else NoAnswer
    case _ =>
      var rows := MetricSeries(t, MetricOf(i));
      if rows != [] then Resolution(Some(Series(i, rows)), []) else NoAnswer
  }

  /** `query_structured_data(query)` over the table `t`. */
  function QueryStructured(query: string, t: Table): (r: Resolution)
    ensures Classify(Lower(query)).None? ==> r == NoAnswer
    ensures |r.followUps| <= 1
    ensures r.followUps != [] <==> r.answer.Some? && r.answer.value.Decrease?
  {
    var intent := Classify(Lower(query));
    if intent.None? then NoAnswer else Answer(intent.value, t)
  }

  /** A series answer holds every row of the intent's metric, as often as the
      table holds it and no other row, oldest period first. */
  lemma SeriesAnswer(query: string, t: Table)
    requires QueryStructured(query, t).answer.Some?
    requires QueryStructured(query, t).answer.value.Series?
    ensures var s := QueryStructured(query, t).answer.value;
      Classify(Lower(query)) == Some(s.intent) && IsSeries(s.intent) &&
      Sorted(s.rows) &&
      (forall x :: x in s.rows <==> x in t && x.metricName == MetricOf(s.intent)) &&
      (forall x: Record | x.metricName == MetricOf(s.intent) :: multiset(s.rows)[x] == multiset(t)[x])
  {
    var i := Classify(Lower(query)).value;
    MetricSeriesSpec(t, MetricOf(i));
  }

  /** A series intent answers exactly when its metric has a row. */
  lemma SeriesAnswered(query: string, t: Table)
    requires Classify(Lower(query)).Some? && IsSeries(Classify(Lower(query)).value)
    ensures QueryStructured(query, t).answer.Some? <==>
      exists x | x in t :: x.metricName == MetricOf(Classify(Lower(query)).value)
  {
    var i := Classify(Lower(query)).value;
    assert QueryStructured(query, t) == Answer(i, t);
    var rows := MetricSeries(t, MetricOf(i));
    assert Answer(i, t).answer.Some? <==> rows != [];
    MetricSeriesSpec(t, MetricOf(i));
    if rows != [] {
      assert rows[0] in rows;
    }
  }

  /** A decrease is reported exactly when the question is about a margin
      decrease, at least two EBITDA margin rows exist, and the latest is
      lower than the one before it; the reported rows are those two. */
  lemma DecreaseAnswer(query: string, t: Table, previous: Record, latest: Record)
    ensures QueryStructured(query, t).answer == Some(Decrease(previous, latest)) <==>
      var s := MetricSeries(t, "EBITDA Margin");
      Classify(Lower(query)) == Some(MarginDecrease) && |s| >= 2 &&
      previous == s[|s| - 2] && latest == s[|s| - 1] && latest.value < previous.value
  {
    var i := Classify(Lower(query));
    if i.Some? {
      DecreaseOfIntent(i.value, t, previous, latest);
    }
  }

  lemma DecreaseOfIntent(i: Intent, t: Table, previous: Record, latest: Record)
    ensures Answer(i, t).answer == Some(Decrease(previous, latest)) <==>
      var s := MetricSeries(t, "EBITDA Margin");
      i == MarginDecrease && |s| >= 2 &&
      previous == s[|s| - 2] && latest == s[|s| - 1] && latest.value < previous.value
  {
  }

  /** The two reported rows are EBITDA margin rows of the table in period
      order, the latest is of the latest period, and one follow-up asks why
      that quarter's margin fell. */
  lemma DecreaseMeaning(query: string, t: Table, previous: Record, latest: Record)
    requires QueryStructured(query, t).answer == Some(Decrease(previous, latest))
    ensures previous in t && latest in t
    ensures previous.metricName == "EBITDA Margin" && latest.metricName == "EBITDA Margin"
    ensures PeriodLe(previous, latest) && latest.value < previous.value
    ensures forall x | x in t && x.metricName == "EBITDA Margin" :: PeriodLe(x, latest)
    ensures QueryStructured(query, t).followUps == [WhyQuestion(latest.quarter)]
  {
    DecreaseAnswer(query, t, previous, latest);
    LatestTwo(MetricSeries(t, "EBITDA Margin"), t, "EBITDA Margin");
  }

  /** The last two rows of a metric's series are rows of that metric in the
      table, in period order, the last of the latest period. */
  lemma LatestTwo(s: seq<Record>, t: Table, name: string)
    requires s == MetricSeries(t, name) && |s| >= 2
    ensures s[|s| - 2] in t && s[|s| - 1] in t
    ensures s[|s| - 2].metricName == name && s[|s| - 1].metricName == name
    ensures PeriodLe(s[|s| - 2], s[|s| - 1])
    ensures forall x | x in t && x.metricName == name :: PeriodLe(x, s[|s| - 1])
  {
    MetricSeriesSpec(t, name);
    assert s[|s| - 2] in s && s[|s| - 1] in s;
    SortedLast(s);
  }

  /** A breakdown lists the expense rows of the latest quarter in the whole
      table; when that quarter holds no expense row there is no answer, even
      if an earlier quarter has some. */
  lemma BreakdownAnswer(query: string, t: Table)
    requires Classify(Lower(query)) == Some(ExpenseBreakdown)
    ensures var r := QueryStructured(query, t);
      r.followUps == [] &&
      (r.answer.Some? <==> exists x | x in t :: x.category == ExpenseCategory && forall y | y in t :: StrLe(y.quarter, x.quarter)) &&
      (r.answer.Some? ==> r.answer.value.Breakdown? && forall x :: x in r.answer.value.rows <==>
        x in t && x.category == ExpenseCategory && forall y | y in t :: StrLe(y.quarter, x.quarter))
  {
    var rows := ExpenseRows(t);
    ExpenseRowsSpec(t);
    if rows != [] {
      assert rows[0] in rows;
    }
  }

  /** Only the first phrase rule that fires is tried: a question that also
      matches a later rule gets no answer from it. A net-profit trend question
      that also asks for the revenue trend answers nothing when no PAT row
      exists, whatever revenue rows there are. */
  lemma FirstRuleDecides(query: string, t: Table)
    requires Holds(ProfitTrend, Lower(query)) && Holds(RevenueTrend, Lower(query))
    requires forall x | x in t :: x.metricName != "PAT"
    ensures QueryStructured(query, t) == NoAnswer
  {
    MetricSeriesSpec(t, "PAT");
  }

  /** A question about a margin that has "evolved" is never read as a
      margin-decrease question, even when it contains that phrase. */
  lemma EvolutionShadowsDecrease(q: string)
    requires Holds(MarginEvolution, q)
    ensures Classify(q) != Some(MarginDecrease)
  {
  }

  /** Matching ignores ASCII case: the question and its lower-cased form are
      resolved alike. */
  lemma CaseInsensitive(query: string, t: Table)
    ensures QueryStructured(Lower(query), t) == QueryStructured(query, t)
  {
    LowerIdempotent(query);
  }

  /** On an empty table no question has a structured answer. */
  lemma EmptyTableAnswersNothing(query: string)
    ensures QueryStructured(query, []) == NoAnswer
  {
  }
}
