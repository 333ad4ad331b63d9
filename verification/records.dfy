/** `metric_table`: the extracted figures, one row per (quarter, metric,
    page) that matched. The SQLite table is an in-memory sequence of rows
    in row-id order. */
module Records {
  import opened Wrappers
  import opened Seqs

  /** A row of `metric_table`. The unit is absent when the regex group it is
      read from did not take part in the match (stored as NULL). */
  datatype Record = Record(
    quarter: string,
    metricName: string,
    value: real,
    unit: Option<string>,
    year: int,
    sourcePage: nat,
    category: string)

  type Table = seq<Record>

  /** The rows `WHERE quarter = q`. */
  function RowsOf(t: Table, q: string): (r: Table)
    ensures forall x :: x in r <==> x in t && x.quarter == q
  {
    Filter(t, (x: Record) => x.quarter == q)
  }

  /** The rows that survive `DELETE FROM metric_table WHERE quarter = q`. */
  function RowsNotOf(t: Table, q: string): (r: Table)
    ensures forall x :: x in r <==> x in t && x.quarter != q
  {
    Filter(t, (x: Record) => x.quarter != q)
  }

  /** Delete every row of quarter `q`, then insert `rows` in order. */
  function ReplaceQuarter(t: Table, q: string, rows: seq<Record>): (r: Table)
    ensures forall x :: x in r <==> (x in t && x.quarter != q) || x in rows
  {
    RowsNotOf(t, q) + rows
  }

  predicate AllOfQuarter(rows: seq<Record>, q: string) {
    forall i | 0 <= i < |rows| :: rows[i].quarter == q
  }

  /** After the replacement the quarter holds exactly the inserted rows, in
      order, and every other quarter holds what it held before. */
  lemma ReplaceQuarterEffect(t: Table, q: string, rows: seq<Record>)
    requires AllOfQuarter(rows, q)
    ensures RowsOf(ReplaceQuarter(t, q, rows), q) == rows
    ensures forall p | p != q :: RowsOf(ReplaceQuarter(t, q, rows), p) == RowsOf(t, p)
    ensures RowsNotOf(ReplaceQuarter(t, q, rows), q) == RowsNotOf(t, q)
  {
    var kept := RowsNotOf(t, q);
    var isQ := (x: Record) => x.quarter == q;
    var notQ := (x: Record) => x.quarter != q;
    FilterAppend(kept, rows, isQ);
    FilterNone(kept, isQ);
    FilterAll(rows, isQ);
    FilterAppend(kept, rows, notQ);
    FilterAll(kept, notQ);
    FilterNone(rows, notQ);
    forall p | p != q ensures RowsOf(ReplaceQuarter(t, q, rows), p) == RowsOf(t, p) {
      OtherQuarterUntouched(t, q, p, rows);
    }
  }

  lemma OtherQuarterUntouched(t: Table, q: string, p: string, rows: seq<Record>)
    requires AllOfQuarter(rows, q) && p != q
    ensures RowsOf(ReplaceQuarter(t, q, rows), p) == RowsOf(t, p)
  {
    var isP := (x: Record) => x.quarter == p;
    FilterAppend(RowsNotOf(t, q), rows, isP);
    FilterNone(rows, isP);
    FilterOfDeleted(t, q, p);
  }

  /** Selecting quarter `p` after deleting quarter `q` selects what `p` held. */
  lemma {:induction false} FilterOfDeleted(t: Table, q: string, p: string)
    requires p != q
    ensures RowsOf(RowsNotOf(t, q), p) == RowsOf(t, p)
    decreases |t|
  {
    if |t| > 0 {
      FilterOfDeleted(t[1..], q, p);
      assert RowsNotOf(t, q) == (if t[0].quarter != q then [t[0]] else []) + RowsNotOf(t[1..], q);
      FilterAppend(if t[0].quarter != q then [t[0]] else [], RowsNotOf(t[1..], q), (x: Record) => x.quarter == p);
    }
  }

  /** Replacing a quarter twice with the same rows is replacing it once. */
  lemma ReplaceQuarterIdempotent(t: Table, q: string, rows: seq<Record>)
    requires AllOfQuarter(rows, q)
    ensures ReplaceQuarter(ReplaceQuarter(t, q, rows), q, rows) == ReplaceQuarter(t, q, rows)
  {
    ReplaceQuarterEffect(t, q, rows);
  }
}
