/** The structured extractor (`extract_structured_data`): every catalog
    metric is searched on every page that has text; each match whose first
    group parses as a number becomes a row, and the rows replace whatever
    the table held for the quarter. The regex engine and `float()` are
    oracles; nothing here interprets a pattern. */
module Extractor {
  import opened Wrappers
  import opened Seqs
  import opened Text
  import opened Records
  import opened Pdf

  /** A row of `user_metrics`: an extraction rule. */
  datatype MetricDef = MetricDef(name: string, pattern: string, category: string)

  /** What `re.search(pattern, text, re.IGNORECASE)` does: raise `re.error`
      on a malformed pattern, find nothing, or find a match whose
      `groups()` tuple is given (absent where a group did not take part). */
  datatype SearchResult = Invalid | NoMatch | Found(groups: seq<Option<string>>)

  /** The two foreign calls: the case-insensitive regex search of a pattern
      in a text, and Python's `float()` on a string (absent on ValueError). */
  datatype Oracles = Oracles(
    search: (string, string) -> SearchResult,
    parse: string -> Option<real>)

  /** A page that has text, with its 1-based position in the document. */
  datatype TextPage = TextPage(number: nat, text: string)

  predicate Ascending(pages: seq<TextPage>) {
    forall k, l | 0 <= k < l < |pages| :: pages[k].number < pages[l].number
  }

  /** `pages_text`: the pages whose text is non-empty, numbered by their
      place in the document (`enumerate(pdf.pages, 1)`), in document order. */
  function TextPages(pages: seq<Option<string>>): (r: seq<TextPage>)
    ensures PagesSound(pages, r) && PagesComplete(pages, r) && Ascending(r)
    decreases |pages|
  {
    if |pages| == 0 then []
    else
      var n := |pages|;
      var prefix := TextPages(pages[..n - 1]);
      TextPagesExtend(pages, prefix);
      if pages[n - 1].Some? && pages[n - 1].value != "" then prefix + [TextPage(n, pages[n - 1].value)]
      else prefix
  }

  /** Every page listed has non-empty text, the text of the document page
      its number names. */
  predicate PagesSound(pages: seq<Option<string>>, r: seq<TextPage>) {
    forall k | 0 <= k < |r| ::
      1 <= r[k].number <= |pages| && pages[r[k].number - 1] == Some(r[k].text) && r[k].text != ""
  }

  /** Every document page with non-empty text is listed under its number. */
  predicate PagesComplete(pages: seq<Option<string>>, r: seq<TextPage>) {
    forall i | 0 <= i < |pages| && pages[i].Some? && pages[i].value != "" ::
      TextPage(i + 1, pages[i].value) in r
  }

  lemma TextPagesExtend(pages: seq<Option<string>>, prefix: seq<TextPage>)
    requires |pages| > 0
    requires PagesSound(pages[..|pages| - 1], prefix)
    requires PagesComplete(pages[..|pages| - 1], prefix)
    requires Ascending(prefix)
    ensures var n := |pages|;
      var r := if pages[n - 1].Some? && pages[n - 1].value != "" then prefix + [TextPage(n, pages[n - 1].value)] else prefix;
      PagesSound(pages, r) && PagesComplete(pages, r) && Ascending(r)
  {
    var n := |pages|;
    var init := pages[..n - 1];
    PrefixSound(pages, prefix);
    if pages[n - 1].Some? && pages[n - 1].value != "" {
      var r := prefix + [TextPage(n, pages[n - 1].value)];
      AppendPageSound(pages, prefix);
      forall i | 0 <= i < n && pages[i].Some? && pages[i].value != "" ensures TextPage(i + 1, pages[i].value) in r {
        if i < n - 1 {
          assert init[i] == pages[i];
        } else {
          assert r[|prefix|] == TextPage(n, pages[n - 1].value);
        }
      }
      forall k, l | 0 <= k < l < |r| ensures r[k].number < r[l].number {
        if l < |prefix| {
          assert r[k] == prefix[k] && r[l] == prefix[l];
        } else {
          assert r[k] == prefix[k];
        }
      }
    } else {
      forall i | 0 <= i < n && pages[i].Some? && pages[i].value != "" ensures TextPage(i + 1, pages[i].value) in prefix {
        assert init[i] == pages[i];
      }
    }
  }

  /** What the list of the first n - 1 pages says stays true of the whole
      document. */
  lemma PrefixSound(pages: seq<Option<string>>, prefix: seq<TextPage>)
    requires |pages| > 0
    requires PagesSound(pages[..|pages| - 1], prefix)
    ensures PagesSound(pages, prefix)
    ensures forall k | 0 <= k < |prefix| :: prefix[k].number < |pages|
  {
    var init := pages[..|pages| - 1];
    forall k | 0 <= k < |prefix| ensures pages[prefix[k].number - 1] == Some(prefix[k].text) {
      assert init[prefix[k].number - 1] == pages[prefix[k].number - 1];
    }
  }

  lemma AppendPageSound(pages: seq<Option<string>>, prefix: seq<TextPage>)
    requires |pages| > 0 && pages[|pages| - 1].Some? && pages[|pages| - 1].value != ""
    requires PagesSound(pages, prefix)
    ensures PagesSound(pages, prefix + [TextPage(|pages|, pages[|pages| - 1].value)])
  {
    var r := prefix + [TextPage(|pages|, pages[|pages| - 1].value)];
    forall k | 0 <= k < |r|
      ensures 1 <= r[k].number <= |pages| && pages[r[k].number - 1] == Some(r[k].text) && r[k].text != ""
    {
      if k < |prefix| {
        assert r[k] == prefix[k];
      }
    }
  }

  /** The year used when the quarter label carries none. */
  const DefaultYear: int := 2023

  /** `FY` followed by two digits starts at position `i` of the label. */
  predicate FiscalYearAt(q: string, i: nat) {
    i + 4 <= |q| && q[i] == 'F' && q[i + 1] == 'Y' && IsDigit(q[i + 2]) && IsDigit(q[i + 3])
  }

  /** Leftmost position at or after `from` where `FY` and two digits start. */
  function FindFiscalYear(q: string, from: nat): (r: Option<nat>)
    ensures r.Some? ==> from <= r.value && FiscalYearAt(q, r.value)
    ensures r.Some? ==> forall j: nat | from <= j < r.value :: !FiscalYearAt(q, j)
    ensures r.None? ==> forall j: nat | from <= j :: !FiscalYearAt(q, j)
    decreases |q| - from
  {
    if from + 4 > |q| then None
    else if FiscalYearAt(q, from) then Some(from)
    else FindFiscalYear(q, from + 1)
  }

  /** `re.search(r"FY(\d{2})", quarter)`: 20NN from the first `FY`NN in the
      label, 2023 when there is none. */
  function YearOf(quarter: string): (y: int)
    ensures 2000 <= y <= 2099
    ensures (forall i: nat :: !FiscalYearAt(quarter, i)) ==> y == DefaultYear
  {
    var f := FindFiscalYear(quarter, 0);
    if f.None? then DefaultYear
    else 2000 + 10 * DigitValue(quarter[f.value + 2]) + DigitValue(quarter[f.value + 3])
  }

  /** The year is read from the leftmost `FY` and two digits: any such
      occurrence with none before it decides the year. */
  lemma YearOfLeftmost(quarter: string, i: nat)
    requires FiscalYearAt(quarter, i)
    requires forall j: nat | j < i :: !FiscalYearAt(quarter, j)
    ensures YearOf(quarter) == 2000 + 10 * DigitValue(quarter[i + 2]) + DigitValue(quarter[i + 3])
  {
    var f := FindFiscalYear(quarter, 0);
    if f.Some? && f.value != i {
      assert false;
    }
  }

  /** The unit stored with a value: the second group when the pattern has
      more than one group and contains `Cr.`; otherwise `%` when the
      pattern contains `%`; otherwise `USD Bn.`. */
  function UnitFor(pattern: string, groups: seq<Option<string>>): (u: Option<string>)
    ensures u == Some("%") || u == Some("USD Bn.") || (|groups| > 1 && u == groups[1])
    ensures u.None? ==> Contains(pattern, "Cr.") && |groups| > 1 && groups[1].None?
    ensures !Contains(pattern, "Cr.") ==> u.Some? && (u.value == "%" <==> Contains(pattern, "%"))
    ensures |groups| <= 1 ==> u.Some? && (u.value == "%" <==> Contains(pattern, "%"))
    ensures |groups| > 1 && Contains(pattern, "Cr.") ==> u == groups[1]
    ensures !(|groups| > 1 && Contains(pattern, "Cr.")) && !Contains(pattern, "%") ==> u == Some("USD Bn.")
  {
    if |groups| > 1 && Contains(pattern, "Cr.") then groups[1]
    else if Contains(pattern, "%") then Some("%")
    else Some("USD Bn.")
  }

  /** Outside the `Cr.` case the unit depends on the pattern alone, never
      on what the match captured. */
  lemma UnitFromPatternAlone(pattern: string, g1: seq<Option<string>>, g2: seq<Option<string>>)
    requires !Contains(pattern, "Cr.")
    ensures UnitFor(pattern, g1) == UnitFor(pattern, g2)
    ensures UnitFor(pattern, g1).Some?
  {
  }

  /** What one (metric, page) pair contributes. */
  datatype Step = Skip | Emit(record: Record) | Raise

  /** One pass of the inner loop body: search the page; on a match read
      group 1 (IndexError when there is none: skipped), convert it with
      `float()` (ValueError: skipped; `None`, a group that did not take
      part, is a TypeError that is not caught), and build the row. An
      invalid pattern raises `re.error`, which is not caught either. */
  function PairStep(m: MetricDef, page: TextPage, quarter: string, year: int, o: Oracles): (st: Step)
    ensures var found := o.search(m.pattern, page.text);
      st.Raise? <==> found.Invalid? || (found.Found? && |found.groups| > 0 && found.groups[0].None?)
    ensures var found := o.search(m.pattern, page.text);
      st.Emit? <==> found.Found? && |found.groups| > 0 && found.groups[0].Some? && o.parse(found.groups[0].value).Some?
    ensures st.Emit? ==>
      var groups := o.search(m.pattern, page.text).groups;
      st.record.quarter == quarter && st.record.metricName == m.name && st.record.category == m.category &&
      st.record.year == year && st.record.sourcePage == page.number &&
      Some(st.record.value) == o.parse(groups[0].value) && st.record.unit == UnitFor(m.pattern, groups)
  {
    match o.search(m.pattern, page.text)
    case Invalid => Raise
    case NoMatch => Skip
    case Found(groups) =>
      if |groups| == 0 then Skip
      else
        match groups[0]
        case None => Raise
        case Some(text) =>
          match o.parse(text)
          case None => Skip
          case Some(v) =>
            Emit(Record(quarter, m.name, v, UnitFor(m.pattern, groups), year, page.number, m.category))
  }

  /** A row together with where it came from: the metric's position in the
      catalog and the page number. */
  datatype Hit = Hit(metric: nat, page: nat, record: Record)

  /** Reference meaning of the inner loop: the hits of metric `mi` over
      `pages`, in page order; absent when a pair raises. */
  function PageHits(mi: nat, m: MetricDef, pages: seq<TextPage>, quarter: string, year: int, o: Oracles): (r: Option<seq<Hit>>)
    ensures r.Some? ==> |r.value| <= |pages|
    ensures r.None? ==> |pages| > 0
    decreases |pages|
  {
    if |pages| == 0 then Some([])
    else
      match PageHits(mi, m, pages[..|pages| - 1], quarter, year, o)
      case None => None
      case Some(hs) =>
        match PairStep(m, pages[|pages| - 1], quarter, year, o)
        case Raise => None
        case Skip => Some(hs)
        case Emit(r) => Some(hs + [Hit(mi, pages[|pages| - 1].number, r)])
  }

  /** Reference meaning of the nested loops: the hits of every metric, in
      catalog order; absent when a pair raises. */
  function CatalogHits(catalog: seq<MetricDef>, pages: seq<TextPage>, quarter: string, year: int, o: Oracles): (r: Option<seq<Hit>>)
    ensures r.None? ==> |catalog| > 0 && |pages| > 0
    decreases |catalog|
  {
    if |catalog| == 0 then Some([])
    else
      var n := |catalog|;
      match CatalogHits(catalog[..n - 1], pages, quarter, year, o)
      case None => None
      case Some(hs) =>
        match PageHits(n - 1, catalog[n - 1], pages, quarter, year, o)
        case None => None
        case Some(more) => Some(hs + more)
  }

  function RecordsOf(hits: seq<Hit>): (rows: seq<Record>)
    ensures |rows| == |hits|
    ensures forall k | 0 <= k < |hits| :: rows[k] == hits[k].record
  {
    Map(hits, (h: Hit) => h.record)
  }

  lemma RecordsOfSnoc(hits: seq<Hit>, h: Hit)
    ensures RecordsOf(hits + [h]) == RecordsOf(hits) + [h.record]
  {
    assert forall k | 0 <= k < |hits| :: (hits + [h])[k] == hits[k];
  }

  /** The result of an extraction run: the rows returned together with the
      table after the commit, or an uncaught exception, in which case the
      uncommitted DELETE and INSERTs are rolled back. */
  datatype Extraction = Completed(inserted: seq<Record>, table: Table) | Crashed

  /** `extract_structured_data(pdf, quarter)` against table `t`. */
  function Extract(t: Table, doc: PdfRead, quarter: string, catalog: seq<MetricDef>, o: Oracles): (e: Extraction)
    ensures doc.raised ==> e == Completed([], t)
    ensures e.Completed? ==> AllOfQuarter(e.inserted, quarter)
    ensures e.Completed? ==> forall k | 0 <= k < |e.inserted| :: e.inserted[k].year == YearOf(quarter)
    ensures e.Completed? && !doc.raised ==> e.table == ReplaceQuarter(t, quarter, e.inserted)
  {
    if doc.raised then Completed([], t)
    else
      var year := YearOf(quarter);
      var pages := TextPages(doc.pages);
      match CatalogHits(catalog, pages, quarter, year, o)
      case None => Crashed
      case Some(hits) =>
        HitsSound(catalog, pages, quarter, year, o);
        var rows := RecordsOf(hits);
        assert forall k | 0 <= k < |rows| :: rows[k].quarter == quarter && rows[k].year == year by {
          forall k | 0 <= k < |rows| ensures rows[k].quarter == quarter && rows[k].year == year {
            assert hits[k] in hits;
          }
        }
        Completed(rows, ReplaceQuarter(t, quarter, rows))
  }

  // ---------------------------------------------------------------------
  // The loops of `extract_structured_data`.

  lemma PageHitsStep(mi: nat, m: MetricDef, pages: seq<TextPage>, j: nat, quarter: string, year: int, o: Oracles)
    requires j < |pages|
    ensures PageHits(mi, m, pages[..j + 1], quarter, year, o) ==
      match PageHits(mi, m, pages[..j], quarter, year, o)
      case None => None
      case Some(hs) =>
        match PairStep(m, pages[j], quarter, year, o)
        case Raise => None
        case Skip => Some(hs)
        case Emit(r) => Some(hs + [Hit(mi, pages[j].number, r)])
  {
    assert pages[..j + 1][..j] == pages[..j];
  }

  /** Once a prefix of the pages raises, the whole loop raises. */
  lemma {:induction false} PageHitsRaisePersists(mi: nat, m: MetricDef, pages: seq<TextPage>, j: nat, quarter: string, year: int, o: Oracles)
    requires j <= |pages|
    requires PageHits(mi, m, pages[..j], quarter, year, o).None?
    ensures PageHits(mi, m, pages, quarter, year, o).None?
    decreases |pages| - j
  {
    if j < |pages| {
      PageHitsStep(mi, m, pages, j, quarter, year, o);
      PageHitsRaisePersists(mi, m, pages, j + 1, quarter, year, o);
    } else {
      assert pages[..j] == pages;
    }
  }

  /** Once a prefix of the catalog raises, the whole run raises. */
  lemma {:induction false} CatalogHitsRaisePersists(catalog: seq<MetricDef>, i: nat, pages: seq<TextPage>, quarter: string, year: int, o: Oracles)
    requires i <= |catalog|
    requires CatalogHits(catalog[..i], pages, quarter, year, o).None?
    ensures CatalogHits(catalog, pages, quarter, year, o).None?
    decreases |catalog| - i
  {
    if i < |catalog| {
      assert catalog[..i + 1][..i] == catalog[..i];
      CatalogHitsRaisePersists(catalog, i + 1, pages, quarter, year, o);
    } else {
      assert catalog[..i] == catalog;
    }
  }

  /** The nested loops: for each metric in catalog order, for each page with
      text in page order, append the row the pair yields. An uncaught
      exception ends the run (`None`). */
  method ExtractRecords(catalog: seq<MetricDef>, pages: seq<TextPage>, quarter: string, year: int, o: Oracles)
    returns (rows: Option<seq<Record>>)
    ensures rows.None? <==> CatalogHits(catalog, pages, quarter, year, o).None?
    ensures rows.Some? ==> rows.value == RecordsOf(CatalogHits(catalog, pages, quarter, year, o).value)
  {
    var acc: seq<Record> := [];
    ghost var hits: seq<Hit> := [];
    var mi := 0;
    while mi < |catalog|
      invariant 0 <= mi <= |catalog|
      invariant CatalogHits(catalog[..mi], pages, quarter, year, o) == Some(hits)
      invariant acc == RecordsOf(hits)
    {
      var m := catalog[mi];
      ghost var more: seq<Hit> := [];
      var pj := 0;
      while pj < |pages|
        invariant 0 <= pj <= |pages|
        invariant PageHits(mi, m, pages[..pj], quarter, year, o) == Some(more)
        invariant acc == RecordsOf(hits + more)
      {
        PageHitsStep(mi, m, pages, pj, quarter, year, o);
        var step := PairStep(m, pages[pj], quarter, year, o);
        match step {
          case Raise =>
            PageHitsRaisePersists(mi, m, pages, pj + 1, quarter, year, o);
            assert catalog[..mi + 1][..mi] == catalog[..mi];
            CatalogHitsRaisePersists(catalog, mi + 1, pages, quarter, year, o);
            return None;
          case Skip =>
          case Emit(r) =>
            RecordsOfSnoc(hits + more, Hit(mi, pages[pj].number, r));
            assert hits + (more + [Hit(mi, pages[pj].number, r)]) == hits + more + [Hit(mi, pages[pj].number, r)];
            acc := acc + [r];
            more := more + [Hit(mi, pages[pj].number, r)];
        }
        pj := pj + 1;
      }
      assert pages[..pj] == pages;
      assert catalog[..mi + 1][..mi] == catalog[..mi];
      hits := hits + more;
      mi := mi + 1;
    }
    assert catalog[..mi] == catalog;
    rows := Some(acc);
  }

  /** `extract_structured_data`: read the pages, derive the year, delete the
      quarter's rows, run the loops, insert and return the rows. */
  method ExtractStructuredData(t: Table, doc: PdfRead, quarter: string, catalog: seq<MetricDef>, o: Oracles)
    returns (e: Extraction)
    ensures e == Extract(t, doc, quarter, catalog, o)
  {
    if doc.raised {
      return Completed([], t);
    }
    var year := YearOf(quarter);
    var pages := TextPages(doc.pages);
    var rows := ExtractRecords(catalog, pages, quarter, year, o);
    match rows {
      case None => e := Crashed;
      case Some(rs) => e := Completed(rs, ReplaceQuarter(t, quarter, rs));
    }
  }

  // ---------------------------------------------------------------------
  // What the loops produce.

  /** `hits` lists its rows by metric, then page. */
  predicate HitBefore(a: Hit, b: Hit) {
    a.metric < b.metric || (a.metric == b.metric && a.page < b.page)
  }

  /** Every hit of one metric comes from a page of the run on which that
      metric's pair emits exactly that row, and carries the metric's index. */
  lemma {:induction false} PageHitsSound(mi: nat, m: MetricDef, pages: seq<TextPage>, quarter: string, year: int, o: Oracles)
    requires PageHits(mi, m, pages, quarter, year, o).Some?
    ensures forall h | h in PageHits(mi, m, pages, quarter, year, o).value ::
      h.metric == mi && exists k | 0 <= k < |pages| ::
        pages[k].number == h.page && PairStep(m, pages[k], quarter, year, o) == Emit(h.record)
    decreases |pages|
  {
    if |pages| > 0 {
      var n := |pages| - 1;
      var init := pages[..n];
      PageHitsSound(mi, m, init, quarter, year, o);
      forall h | h in PageHits(mi, m, pages, quarter, year, o).value
        ensures h.metric == mi && exists k | 0 <= k < |pages| ::
          pages[k].number == h.page && PairStep(m, pages[k], quarter, year, o) == Emit(h.record)
      {
        if h in PageHits(mi, m, init, quarter, year, o).value {
          var k :| 0 <= k < |init| && init[k].number == h.page && PairStep(m, init[k], quarter, year, o) == Emit(h.record);
          assert pages[k] == init[k];
        } else {
          assert pages[n].number == h.page && PairStep(m, pages[n], quarter, year, o) == Emit(h.record);
        }
      }
    }
  }

  /** Every page on which a metric's pair emits a row contributes a hit:
      the inner loop does not stop at the first matching page. */
  lemma {:induction false} PageHitsComplete(mi: nat, m: MetricDef, pages: seq<TextPage>, quarter: string, year: int, o: Oracles)
    requires PageHits(mi, m, pages, quarter, year, o).Some?
    ensures forall k | 0 <= k < |pages| && PairStep(m, pages[k], quarter, year, o).Emit? ::
      Hit(mi, pages[k].number, PairStep(m, pages[k], quarter, year, o).record) in PageHits(mi, m, pages, quarter, year, o).value
    decreases |pages|
  {
    if |pages| > 0 {
      var n := |pages| - 1;
      var init := pages[..n];
      PageHitsComplete(mi, m, init, quarter, year, o);
      forall k | 0 <= k < n && PairStep(m, pages[k], quarter, year, o).Emit?
        ensures Hit(mi, pages[k].number, PairStep(m, pages[k], quarter, year, o).record) in PageHits(mi, m, pages, quarter, year, o).value
      {
        assert init[k] == pages[k];
      }
    }
  }

  /** The hits of one metric are in ascending page order. */
  lemma {:induction false} PageHitsOrdered(mi: nat, m: MetricDef, pages: seq<TextPage>, quarter: string, year: int, o: Oracles)
    requires Ascending(pages)
    requires PageHits(mi, m, pages, quarter, year, o).Some?
    ensures forall a, b | 0 <= a < b < |PageHits(mi, m, pages, quarter, year, o).value| ::
      PageHits(mi, m, pages, quarter, year, o).value[a].page < PageHits(mi, m, pages, quarter, year, o).value[b].page
    decreases |pages|
  {
    if |pages| > 0 {
      var n := |pages| - 1;
      var init := pages[..n];
      PageHitsOrdered(mi, m, init, quarter, year, o);
      PageHitsSound(mi, m, init, quarter, year, o);
      var hs := PageHits(mi, m, init, quarter, year, o).value;
      forall h | h in hs ensures h.page < pages[n].number {
        var k :| 0 <= k < |init| && init[k].number == h.page && PairStep(m, init[k], quarter, year, o) == Emit(h.record);
        assert init[k] == pages[k];
      }
    }
  }

  /** The inner loop raises exactly when some page's pair raises. */
  lemma {:induction false} PageHitsRaise(mi: nat, m: MetricDef, pages: seq<TextPage>, quarter: string, year: int, o: Oracles)
    ensures PageHits(mi, m, pages, quarter, year, o).None? <==>
      exists k | 0 <= k < |pages| :: PairStep(m, pages[k], quarter, year, o).Raise?
    decreases |pages|
  {
    if |pages| > 0 {
      var n := |pages| - 1;
      var init := pages[..n];
      PageHitsRaise(mi, m, init, quarter, year, o);
      if exists k | 0 <= k < n :: PairStep(m, pages[k], quarter, year, o).Raise? {
        var k :| 0 <= k < n && PairStep(m, pages[k], quarter, year, o).Raise?;
        assert init[k] == pages[k];
      }
      if exists k | 0 <= k < |init| :: PairStep(m, init[k], quarter, year, o).Raise? {
        var k :| 0 <= k < |init| && PairStep(m, init[k], quarter, year, o).Raise?;
        assert init[k] == pages[k];
      }
    }
  }

  /** Every hit of the run comes from a catalog metric and a page on which
      that pair emits exactly its row; every row is tagged with the quarter
      and year of the run. */
  lemma {:induction false} HitsSound(catalog: seq<MetricDef>, pages: seq<TextPage>, quarter: string, year: int, o: Oracles)
    requires CatalogHits(catalog, pages, quarter, year, o).Some?
    ensures forall h | h in CatalogHits(catalog, pages, quarter, year, o).value ::
      h.metric < |catalog| && exists k | 0 <= k < |pages| ::
        pages[k].number == h.page && PairStep(catalog[h.metric], pages[k], quarter, year, o) == Emit(h.record)
    ensures forall h | h in CatalogHits(catalog, pages, quarter, year, o).value ::
      h.record.quarter == quarter && h.record.year == year && h.record.metricName == catalog[h.metric].name
    decreases |catalog|
  {
    if |catalog| > 0 {
      var n := |catalog| - 1;
      var init := catalog[..n];
      HitsSound(init, pages, quarter, year, o);
      PageHitsSound(n, catalog[n], pages, quarter, year, o);
      forall h | h in CatalogHits(catalog, pages, quarter, year, o).value
        ensures h.metric < |catalog| && exists k | 0 <= k < |pages| ::
          pages[k].number == h.page && PairStep(catalog[h.metric], pages[k], quarter, year, o) == Emit(h.record)
        ensures h.record.quarter == quarter && h.record.year == year && h.record.metricName == catalog[h.metric].name
      {
        if h in CatalogHits(init, pages, quarter, year, o).value {
          assert catalog[h.metric] == init[h.metric];
        }
        var k :| 0 <= k < |pages| && pages[k].number == h.page && PairStep(catalog[h.metric], pages[k], quarter, year, o) == Emit(h.record);
      }
    }
  }

  /** Every (metric, page) pair that emits a row contributes it to the run,
      on every matching page: metrics do not stop at their first match. */
  lemma {:induction false} HitsComplete(catalog: seq<MetricDef>, pages: seq<TextPage>, quarter: string, year: int, o: Oracles)
    requires CatalogHits(catalog, pages, quarter, year, o).Some?
    ensures forall mi, k | 0 <= mi < |catalog| && 0 <= k < |pages| && PairStep(catalog[mi], pages[k], quarter, year, o).Emit? ::
      Hit(mi, pages[k].number, PairStep(catalog[mi], pages[k], quarter, year, o).record) in CatalogHits(catalog, pages, quarter, year, o).value
    decreases |catalog|
  {
    if |catalog| > 0 {
      var n := |catalog| - 1;
      var init := catalog[..n];
      HitsComplete(init, pages, quarter, year, o);
      PageHitsComplete(n, catalog[n], pages, quarter, year, o);
      forall mi, k | 0 <= mi < n && 0 <= k < |pages| && PairStep(catalog[mi], pages[k], quarter, year, o).Emit?
        ensures Hit(mi, pages[k].number, PairStep(catalog[mi], pages[k], quarter, year, o).record) in CatalogHits(catalog, pages, quarter, year, o).value
      {
        assert init[mi] == catalog[mi];
      }
    }
  }

  /** Rows come out metric by metric in catalog order, and within a metric
      in ascending page order. */
  lemma {:induction false} HitsOrdered(catalog: seq<MetricDef>, pages: seq<TextPage>, quarter: string, year: int, o: Oracles)
    requires Ascending(pages)
    requires CatalogHits(catalog, pages, quarter, year, o).Some?
    ensures forall a, b | 0 <= a < b < |CatalogHits(catalog, pages, quarter, year, o).value| ::
      HitBefore(CatalogHits(catalog, pages, quarter, year, o).value[a], CatalogHits(catalog, pages, quarter, year, o).value[b])
    decreases |catalog|
  {
    if |catalog| > 0 {
      var n := |catalog| - 1;
      var init := catalog[..n];
      HitsOrdered(init, pages, quarter, year, o);
      HitsSound(init, pages, quarter, year, o);
      PageHitsOrdered(n, catalog[n], pages, quarter, year, o);
      PageHitsSound(n, catalog[n], pages, quarter, year, o);
      var hs := CatalogHits(init, pages, quarter, year, o).value;
      var more := PageHits(n, catalog[n], pages, quarter, year, o).value;
      assert CatalogHits(catalog, pages, quarter, year, o).value == hs + more;
      AppendOrdered(hs, more, n);
    }
  }

  /** Hits of earlier metrics in order, followed by one metric's hits in
      page order, are in order. */
  lemma AppendOrdered(hs: seq<Hit>, more: seq<Hit>, n: nat)
    requires forall a, b | 0 <= a < b < |hs| :: HitBefore(hs[a], hs[b])
    requires forall h | h in hs :: h.metric < n
    requires forall h | h in more :: h.metric == n
    requires forall a, b | 0 <= a < b < |more| :: more[a].page < more[b].page
    ensures forall a, b | 0 <= a < b < |hs + more| :: HitBefore((hs + more)[a], (hs + more)[b])
  {
    var all := hs + more;
    forall a, b | 0 <= a < b < |all| ensures HitBefore(all[a], all[b]) {
      if b < |hs| {
        assert all[a] == hs[a] && all[b] == hs[b];
      } else if a < |hs| {
        assert all[a] == hs[a] && all[b] == more[b - |hs|];
        assert hs[a] in hs && more[b - |hs|] in more;
      } else {
        assert all[a] == more[a - |hs|] && all[b] == more[b - |hs|];
        assert more[a - |hs|] in more;
      }
    }
  }

  /** The run raises exactly when some (metric, page) pair raises. */
  lemma {:induction false} HitsRaise(catalog: seq<MetricDef>, pages: seq<TextPage>, quarter: string, year: int, o: Oracles)
    ensures CatalogHits(catalog, pages, quarter, year, o).None? <==>
      exists mi, k | 0 <= mi < |catalog| && 0 <= k < |pages| :: PairStep(catalog[mi], pages[k], quarter, year, o).Raise?
    decreases |catalog|
  {
    if |catalog| > 0 {
      var n := |catalog| - 1;
      var init := catalog[..n];
      HitsRaise(init, pages, quarter, year, o);
      PageHitsRaise(n, catalog[n], pages, quarter, year, o);
      if exists mi, k | 0 <= mi < n && 0 <= k < |pages| :: PairStep(catalog[mi], pages[k], quarter, year, o).Raise? {
        var mi, k :| 0 <= mi < n && 0 <= k < |pages| && PairStep(catalog[mi], pages[k], quarter, year, o).Raise?;
        assert init[mi] == catalog[mi];
      }
      if exists mi, k | 0 <= mi < |init| && 0 <= k < |pages| :: PairStep(init[mi], pages[k], quarter, year, o).Raise? {
        var mi, k :| 0 <= mi < |init| && 0 <= k < |pages| && PairStep(init[mi], pages[k], quarter, year, o).Raise?;
        assert init[mi] == catalog[mi];
      }
    }
  }

  // ---------------------------------------------------------------------
  // The extraction run as a whole.

  /** No early exit: every page with text on which a metric matches and its
      capture parses yields a row, whether or not an earlier page did. */
  lemma EveryMatchingPageRecorded(t: Table, doc: PdfRead, quarter: string, catalog: seq<MetricDef>, o: Oracles, mi: nat, n: nat)
    requires !doc.raised && mi < |catalog| && 1 <= n <= |doc.pages|
    requires doc.pages[n - 1].Some? && doc.pages[n - 1].value != ""
    requires PairStep(catalog[mi], TextPage(n, doc.pages[n - 1].value), quarter, YearOf(quarter), o).Emit?
    requires Extract(t, doc, quarter, catalog, o).Completed?
    ensures PairStep(catalog[mi], TextPage(n, doc.pages[n - 1].value), quarter, YearOf(quarter), o).record
      in Extract(t, doc, quarter, catalog, o).inserted
  {
    var year := YearOf(quarter);
    var pages := TextPages(doc.pages);
    var page := TextPage(n, doc.pages[n - 1].value);
    assert page in pages;
    var k :| 0 <= k < |pages| && pages[k] == page;
    HitsComplete(catalog, pages, quarter, year, o);
    var hits := CatalogHits(catalog, pages, quarter, year, o).value;
    var h := Hit(mi, n, PairStep(catalog[mi], page, quarter, year, o).record);
    assert h in hits;
    var j :| 0 <= j < |hits| && hits[j] == h;
    assert RecordsOf(hits)[j] == h.record;
  }

  /** Every inserted row comes from a catalog metric and a page with text on
      which that metric's pair yields exactly that row. */
  lemma ExtractedRowsSound(t: Table, doc: PdfRead, quarter: string, catalog: seq<MetricDef>, o: Oracles, r: Record)
    requires Extract(t, doc, quarter, catalog, o).Completed?
    requires r in Extract(t, doc, quarter, catalog, o).inserted
    ensures !doc.raised
    ensures exists mi, k | 0 <= mi < |catalog| && 0 <= k < |TextPages(doc.pages)| ::
      PairStep(catalog[mi], TextPages(doc.pages)[k], quarter, YearOf(quarter), o) == Emit(r)
  {
    var year := YearOf(quarter);
    var pages := TextPages(doc.pages);
    var hits := CatalogHits(catalog, pages, quarter, year, o).value;
    HitsSound(catalog, pages, quarter, year, o);
    var rows := RecordsOf(hits);
    assert r in rows;
    var j :| 0 <= j < |rows| && rows[j] == r;
    var h := hits[j];
    assert h in hits;
    var k :| 0 <= k < |pages| && pages[k].number == h.page && PairStep(catalog[h.metric], pages[k], quarter, year, o) == Emit(h.record);
  }

  /** The run ends in an uncaught exception exactly when the document was
      read and some (metric, page-with-text) pair raises. */
  lemma ExtractCrashes(t: Table, doc: PdfRead, quarter: string, catalog: seq<MetricDef>, o: Oracles)
    ensures Extract(t, doc, quarter, catalog, o).Crashed? <==>
      !doc.raised && exists mi, k | 0 <= mi < |catalog| && 0 <= k < |TextPages(doc.pages)| ::
        PairStep(catalog[mi], TextPages(doc.pages)[k], quarter, YearOf(quarter), o).Raise?
  {
    HitsRaise(catalog, TextPages(doc.pages), quarter, YearOf(quarter), o);
    if !doc.raised {
      assert Extract(t, doc, quarter, catalog, o).Crashed? <==>
        CatalogHits(catalog, TextPages(doc.pages), quarter, YearOf(quarter), o).None?;
    }
  }

  /** Extracting the same document for the same quarter twice leaves the
      table as extracting it once, and returns the same rows. */
  lemma ExtractIdempotent(t: Table, doc: PdfRead, quarter: string, catalog: seq<MetricDef>, o: Oracles)
    requires Extract(t, doc, quarter, catalog, o).Completed?
    ensures Extract(Extract(t, doc, quarter, catalog, o).table, doc, quarter, catalog, o)
      == Extract(t, doc, quarter, catalog, o)
  {
    var e := Extract(t, doc, quarter, catalog, o);
    if !doc.raised {
      ReplaceQuarterIdempotent(t, quarter, e.inserted);
    }
  }

  /** The run replaces by quarter: afterwards the quarter holds exactly the
      returned rows and no other quarter changed. */
  lemma ExtractReplacesQuarter(t: Table, doc: PdfRead, quarter: string, catalog: seq<MetricDef>, o: Oracles)
    requires Extract(t, doc, quarter, catalog, o).Completed?
    ensures !doc.raised ==> RowsOf(Extract(t, doc, quarter, catalog, o).table, quarter) == Extract(t, doc, quarter, catalog, o).inserted
    ensures forall p | p != quarter :: RowsOf(Extract(t, doc, quarter, catalog, o).table, p) == RowsOf(t, p)
  {
    var e := Extract(t, doc, quarter, catalog, o);
    if !doc.raised {
      ReplaceQuarterEffect(t, quarter, e.inserted);
    }
  }
}
