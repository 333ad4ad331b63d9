/** `ORDER BY year, quarter` and `MAX(quarter)` over `metric_table` rows.
    Years compare as integers; quarters compare as text under SQLite's
    BINARY collation, which on UTF-8 text is code-point order (`StrLe`). */
module Periods {
  import opened Wrappers
  import opened Text
  import opened Records

  /** `a` sorts no later than `b` under `ORDER BY year, quarter`. */
  predicate PeriodLe(a: Record, b: Record) {
    a.year < b.year || (a.year == b.year && StrLe(a.quarter, b.quarter))
  }

  lemma PeriodLeReflexive(a: Record)
    ensures PeriodLe(a, a)
  {
    StrLeReflexive(a.quarter);
  }

  lemma PeriodLeTotal(a: Record, b: Record)
    ensures PeriodLe(a, b) || PeriodLe(b, a)
  {
    StrLeTotal(a.quarter, b.quarter);
  }

  lemma PeriodLeTransitive(a: Record, b: Record, c: Record)
    requires PeriodLe(a, b) && PeriodLe(b, c)
    ensures PeriodLe(a, c)
  {
    if a.year == b.year == c.year {
      StrLeTransitive(a.quarter, b.quarter, c.quarter);
    }
  }

  /** Every row sorts no later than every row after it. */
  predicate Sorted(xs: seq<Record>) {
    forall i, j | 0 <= i < j < |xs| :: PeriodLe(xs[i], xs[j])
  }

  /** Puts `r` in front of the first row it sorts no later than, so that it
      stays ahead of rows of the same period. */
  function Insert(r: Record, xs: seq<Record>): (ys: seq<Record>)
    requires Sorted(xs)
    ensures Sorted(ys)
    ensures multiset(ys) == multiset(xs) + multiset{r}
    decreases |xs|
  {
    if |xs| == 0 then [r]
    else if PeriodLe(r, xs[0]) then
      InsertFront(r, xs);
      [r] + xs
    else
      var rest := Insert(r, xs[1..]);
      assert xs == [xs[0]] + xs[1..];
      InsertBehind(r, xs, rest);
      [xs[0]] + rest
  }

  lemma InsertFront(r: Record, xs: seq<Record>)
    requires Sorted(xs) && |xs| > 0 && PeriodLe(r, xs[0])
    ensures Sorted([r] + xs)
  {
    var ys := [r] + xs;
    forall i, j | 0 <= i < j < |ys| ensures PeriodLe(ys[i], ys[j]) {
      if i == 0 && j > 1 {
        PeriodLeTransitive(r, xs[0], xs[j - 1]);
      }
    }
  }

  lemma InsertBehind(r: Record, xs: seq<Record>, rest: seq<Record>)
    requires Sorted(xs) && |xs| > 0 && !PeriodLe(r, xs[0])
    requires Sorted(rest) && multiset(rest) == multiset(xs[1..]) + multiset{r}
    ensures Sorted([xs[0]] + rest)
  {
    PeriodLeTotal(r, xs[0]);
    var ys := [xs[0]] + rest;
    forall j | 1 <= j < |ys| ensures PeriodLe(xs[0], ys[j]) {
      assert ys[j] in multiset(rest);
      if ys[j] != r {
        assert ys[j] in multiset(xs[1..]);
        var k :| 0 <= k < |xs[1..]| && xs[1..][k] == ys[j];
        assert PeriodLe(xs[0], xs[k + 1]);
      }
    }
  }

  /** The rows of `xs` in `ORDER BY year, quarter` order. Rows of the same
      period keep their table order (an insertion sort). */
  function SortByPeriod(xs: seq<Record>): (ys: seq<Record>)
    ensures Sorted(ys)
    ensures multiset(ys) == multiset(xs)
    decreases |xs|
  {
    if |xs| == 0 then []
    else
      assert xs == [xs[0]] + xs[1..];
      Insert(xs[0], SortByPeriod(xs[1..]))
  }

  /** The last row of a sorted non-empty sequence is of its latest period. */
  lemma SortedLast(xs: seq<Record>)
    requires Sorted(xs) && |xs| > 0
    ensures forall x | x in xs :: PeriodLe(x, xs[|xs| - 1])
  {
    PeriodLeReflexive(xs[|xs| - 1]);
  }

  /** `SELECT MAX(quarter) FROM metric_table`: NULL on an empty table,
      otherwise the greatest quarter present. */
  function MaxQuarter(t: Table): (m: Option<string>)
    ensures m.None? <==> |t| == 0
    ensures m.Some? ==> exists i | 0 <= i < |t| :: t[i].quarter == m.value
    ensures m.Some? ==> forall i | 0 <= i < |t| :: StrLe(t[i].quarter, m.value)
    decreases |t|
  {
    if |t| == 0 then None
    else
      var rest := MaxQuarter(t[1..]);
      if rest.None? || StrLe(rest.value, t[0].quarter) then
        MaxAbove(t, rest);
        Some(t[0].quarter)
      else
        StrLeTotal(rest.value, t[0].quarter);
        assert forall i | 1 <= i < |t| :: t[i] == t[1..][i - 1];
        Some(rest.value)
  }

  lemma MaxAbove(t: Table, rest: Option<string>)
    requires |t| > 0
    requires rest.None? ==> |t| == 1
    requires rest.Some? ==> forall i | 0 <= i < |t[1..]| :: StrLe(t[1..][i].quarter, rest.value)
    requires rest.None? || StrLe(rest.value, t[0].quarter)
    ensures forall i | 0 <= i < |t| :: StrLe(t[i].quarter, t[0].quarter)
  {
    StrLeReflexive(t[0].quarter);
    forall i | 1 <= i < |t| ensures StrLe(t[i].quarter, t[0].quarter) {
      assert t[i] == t[1..][i - 1];
      StrLeTransitive(t[i].quarter, rest.value, t[0].quarter);
    }
  }
}
