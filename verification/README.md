# Financial PDF RAG core, modelled in Dafny

`app.py` is a Flask application that reads quarterly financial reports (PDF)
and answers questions about them in two ways:

- **Structured.** Regex rules from a metric catalog pull figures out of every page into
  an SQLite table `metric_table`. A question is then answered from that table when
  it matches one of six fixed phrase rules.
- **Semantic.** The page text is cut into paragraph chunks. The chunks are embedded into a flat
  L2 vector index. A question no rule answers, and the follow-up question of a
  margin decrease, are answered with the chunks nearest to it.

This project models the deterministic logic between those library calls:

| module | file | models |
|---|---|---|
| `Text` | text.dfy | Python's `str.strip`, `str.split`, `str.lower`, `in` on strings, string order |
| `Seqs` | seqs.dfy | order-keeping filter and map over sequences |
| `Chunker` | chunker.dfy | `chunk_text` |
| `Records` | records.dfy | `metric_table` as a sequence of rows; delete-by-quarter then insert |
| `Pdf` | pdf.dfy | what `pdfplumber` yields: a text or nothing per page, and whether the read raised |
| `Extractor` | extractor.dfy | `extract_structured_data`: page numbering, year, unit, the nested metric/page loops, replace-by-quarter |
| `Ingestion` | ingestion.dfy | `load_or_create_index` and the chunk/index bookkeeping of `store_unstructured_data` |
| `Retrieval` | retrieval.dfy | the filtering of index neighbours in `query_unstructured_data` |
| `Periods` | periods.dfy | `ORDER BY year, quarter` and `MAX(quarter)` |
| `Resolver` | resolver.dfy | `query_structured_data`: the phrase-rule chain and its six handlers |
| `Dispatch` | dispatch.dfy | the POST branch of `/query` |

The foreign calls are parameters of the model:

- The regex search is a function from (pattern, text) to "invalid pattern", "no match" or the tuple of groups.
- `float()` is a partial function from strings to reals.
- The embedder is a function from texts to vectors.
- The FAISS search is a function from a question to its three neighbour positions.

The model never interprets a pattern or a vector. Each Python exception becomes an explicit outcome:

- A document read that raises is a flag on the read, with the pages obtained before it.
- An uncaught exception during extraction is the `Crashed` outcome. It leaves the table as it was, because the DELETE and INSERTs were never committed.

Some behaviour of `app.py` is easy to misread; the model keeps it as the code has it:

- Extraction does not stop at the first matching page (app.py:136-157). A metric that matches on several pages gives one row per page.
- For a pattern that contains `Cr.` and has more than one group, the unit is the text the second group captured (app.py:142). It is not derived from the pattern alone.
- A failure to read the document is not atomic in `store_unstructured_data` (app.py:92-101): chunks of pages already read stay appended (see Findings). Extraction returns before its DELETE (app.py:125-128).
- When a phrase rule fires but its lookup finds nothing, no later rule is tried (the `elif` chain, app.py:169-220); the question goes to semantic search. The same holds for the decrease rule whether it found fewer than two rows or no decrease.
- Only `ValueError` and `IndexError` are caught (app.py:156). Two other conditions crash the run: a first group that did not take part in the match (`float(None)` is a `TypeError`), and a malformed pattern (`re.error`).

## Model

| member | source | states |
|---|---|---|
| Text.Strip | app.py:87 | the result has no leading or trailing Python whitespace (the exact `str.isspace` set), is no longer than the input, and is empty exactly when the input is all whitespace |
| Text.StripFrames | app.py:87 | the stripped text is a contiguous slice of the input with only whitespace cut off at either end |
| Text.StripIdentity | app.py:87 | stripping leaves a text unchanged exactly when it already has no surrounding whitespace |
| Text.Find | app.py:87 | the position found is an occurrence of the separator and no earlier one exists; none is found only when the separator occurs nowhere from the start position on |
| Text.FindLeftmost | app.py:87 | any occurrence with no earlier occurrence is the one found |
| Text.Split | app.py:87 | `str.split(sep)` always yields at least one piece |
| Text.SplitJoin | app.py:87 | joining the pieces of a split with the separator gives back the original text (round trip) |
| Text.SplitPieces | app.py:87 | no piece contains the separator, and each piece but the last is followed by the leftmost occurrence of the separator |
| Text.SplitUnique | app.py:87 | any piece list that joins back to the text, has no separator inside a piece, and cuts at leftmost occurrences is the split itself |
| Text.Lower | app.py:166 | `str.lower()` leaves no ASCII capital and never shortens the text |
| Text.LowerChar | app.py:166 | a capital `A`-`Z` becomes the small letter at the same alphabet place; KELVIN SIGN becomes `k`, U+0130 becomes `i` plus U+0307; every other character is unchanged |
| Text.LowerMapsAlphabet | app.py:166 | each letter of `ABCDEFGHIJKLMNOPQRSTUVWXYZ` lowers to the letter at the same place in `abcdefghijklmnopqrstuvwxyz` |
| Text.LowerPointwise | app.py:166 | on text without U+0130 lower-casing keeps the length and each character of the result is that character lowered by `LowerChar` |
| Text.Contains | app.py:169-220 | Python's `t in s`: `t` occurs at some position of `s` |
| Text.LowerAppend | app.py:166 | lower-casing distributes over concatenation |
| Text.LowerIdempotent | app.py:166 | lower-casing twice is lower-casing once |
| Text.StrLeReflexive | app.py:211 | code-point string order is reflexive |
| Text.StrLeTotal | app.py:211 | any two quarter labels are comparable, so `MAX(quarter)` is defined on a non-empty table |
| Text.StrLeTransitive | app.py:211 | code-point string order is transitive |
| Text.StrLeAntisymmetric | app.py:211 | two labels each no greater than the other are equal, so the greatest quarter is unique |
| Text.DigitValue | app.py:130-131 | an ASCII digit denotes the value at whose place it stands in `0123456789` |
| Seqs.Filter | app.py:87 | the kept elements are exactly the input elements satisfying the test, none added |
| Seqs.FilterIsSubsequence | app.py:87 | filtering keeps the surviving elements in their original order |
| Seqs.FilterAppend | app.py:87 | filtering a concatenation filters each part |
| Seqs.FilterMultiset | app.py:170 | filtering never duplicates an element and keeps every occurrence of an element that passes the test |
| Seqs.Map | app.py:87 | one output per input, position by position |
| Seqs.MapMembership | app.py:87 | a value is in the mapped sequence exactly when it is the image of some input element |
| Seqs.MapAppend | app.py:87 | mapping a concatenation maps each part |
| Chunker.Candidates | app.py:87 | one stripped candidate per `"\n\n"` piece |
| Chunker.CandidateMembership | app.py:87 | a text is a candidate exactly when it is the stripped form of some `"\n\n"` piece |
| Chunker.ChunkText | app.py:84-88 | absent or empty text gives no chunk; every chunk is non-empty and has no surrounding whitespace |
| Chunker.ChunkMembership | app.py:87 | a text is a chunk exactly when it is non-empty and is the stripped form of some `"\n\n"` piece (both directions) |
| Chunker.ChunkOrder | app.py:87 | chunks appear in the order of the pieces they come from |
| Chunker.ChunkHasNoBreak | app.py:87 | no chunk contains a blank line |
| Chunker.SingleParagraph | app.py:84-88 | text without a blank line is one chunk, its stripped self, unless it is all whitespace |
| Chunker.ChunkConcat | app.py:87 | paragraphs are chunked independently: a leading paragraph followed by a blank line chunks as that paragraph alone, then the rest |
| Chunker.CandidatesConcat | app.py:87 | the candidates of a leading paragraph, a blank line and a rest are the paragraph's candidates followed by the rest's |
| Records.RowsOf | app.py:133 | the rows of a quarter are exactly the table rows carrying that quarter |
| Records.RowsNotOf | app.py:133 | `DELETE ... WHERE quarter = ?` keeps exactly the rows of other quarters |
| Records.ReplaceQuarter | app.py:133-146 | after delete-then-insert a row is present exactly when it is an old row of another quarter or an inserted row |
| Records.ReplaceQuarterEffect | app.py:133-146 | afterwards the quarter holds exactly the inserted rows in order, and every other quarter holds what it held before |
| Records.OtherQuarterUntouched | app.py:133 | re-extracting one quarter never changes the rows of another |
| Records.FilterOfDeleted | app.py:133 | selecting another quarter after the delete selects exactly, and in order, the rows that quarter held before |
| Records.ReplaceQuarterIdempotent | app.py:133-146 | replacing a quarter with the same rows twice is the same as once |
| Extractor.TextPages | app.py:120-124 | the pages kept are exactly the pages with non-empty text, each numbered by its 1-based place in the document, in ascending order |
| Extractor.FindFiscalYear | app.py:130 | the position found is the leftmost `FY` followed by two ASCII digits at or after the start |
| Extractor.YearOf | app.py:130-131 | the year is always between 2000 and 2099, and it is 2023 when the label holds no `FY` followed by two digits |
| Extractor.YearOfLeftmost | app.py:130-131 | the year is 2000 + NN for the leftmost `FY`NN in the label |
| Extractor.UnitFor | app.py:142 | the three-way rule: a `Cr.` pattern with more than one group stores the captured second group (NULL when it did not take part); otherwise `%` exactly when the pattern contains `%`, and the literal `USD Bn.` when it does not |
| Extractor.UnitFromPatternAlone | app.py:142 | for a pattern without `Cr.` the unit is the same whatever the match captured, and never NULL |
| Extractor.PairStep | app.py:138-157 | one (metric, page) pair raises exactly on an invalid pattern or an absent first group, emits exactly when there is a first group and `float()` accepts it, and the emitted row carries the run's quarter and year, the metric's name and category, the page number, the parsed value and the unit rule's result |
| Extractor.PageHits | app.py:137-157 | reference meaning of the page loop for one metric: at most one row per page, and it can raise only if there is a page |
| Extractor.CatalogHits | app.py:136-157 | reference meaning of the nested loops: they can raise only if there is a metric and a page |
| Extractor.RecordsOf | app.py:147-155 | the returned rows are the hits' rows, in order |
| Extractor.Extract | app.py:110-161 | a failed read returns no rows and leaves the table untouched; every inserted row carries the run's quarter and year; a completed run's table is the old table with the quarter replaced by the inserted rows |
| Extractor.ExtractRecords | app.py:136-157 | the nested loops raise exactly when the reference run does, and otherwise yield its rows in catalog-then-page order |
| Extractor.ExtractStructuredData | app.py:110-161 | the imperative run agrees with `Extract` on every input |
| Extractor.PageHitsSound | app.py:137-146 | each hit of one metric comes from a page on which that metric yields exactly that row |
| Extractor.PageHitsComplete | app.py:137-157 | every page on which a metric matches and parses contributes its row: no early exit |
| Extractor.PageHitsOrdered | app.py:137 | one metric's rows are in ascending page order |
| Extractor.PageHitsRaise | app.py:138-157 | the page loop raises exactly when some page's pair raises |
| Extractor.PageHitsRaisePersists | app.py:138-157 | once a page's pair raises, the page loop raises, whatever later pages hold |
| Extractor.HitsSound | app.py:136-155 | every row comes from a catalog metric and a page with text on which that pair yields it, tagged with the run's quarter, year and the metric's name |
| Extractor.HitsComplete | app.py:136-157 | every (metric, page) pair that matches and parses contributes its row |
| Extractor.HitsOrdered | app.py:136-137 | rows are grouped by metric in catalog order, and within a metric in ascending page order |
| Extractor.HitsRaise | app.py:136-157 | the run raises exactly when some (metric, page) pair raises |
| Extractor.CatalogHitsRaisePersists | app.py:136-157 | once a metric's pass raises, the run raises, whatever later metrics hold |
| Extractor.EveryMatchingPageRecorded | app.py:137-157 | for a completed run, a metric matching on any page with text has that page's row among the inserted rows, whatever earlier pages matched |
| Extractor.ExtractedRowsSound | app.py:120-157 | every inserted row comes from a catalog metric and a page with text on which that pair yields exactly it |
| Extractor.ExtractCrashes | app.py:138-157 | the run crashes exactly when the document was read and some (metric, page-with-text) pair raises an uncaught exception |
| Extractor.ExtractIdempotent | app.py:133-158 | extracting the same document for the same quarter twice gives the same table and rows as once |
| Extractor.ExtractReplacesQuarter | app.py:133-158 | after a run the quarter holds exactly the returned rows, and every other quarter is as before |
| Ingestion.Startup | app.py:75-82 | the process starts with an empty chunk list and the index read from disk, or an empty one |
| Ingestion.EmbedAll | app.py:103-106 | one vector per chunk, the i-th embedding the i-th chunk's text |
| Ingestion.PageChunks | app.py:97-98 | `[(chunk, quarter, page_num) for chunk in page_chunks]`: one entry per chunk of the page text, in order, each tagged with the quarter and page |
| Ingestion.DocumentChunks | app.py:94-98 | the chunks appended for a document all carry the quarter and a page number of the document |
| Ingestion.IngestAsWritten | app.py:90-108 | the chunks of every page read are appended; after a read exception the index is kept as it was; otherwise it is rebuilt aligned with the whole chunk list |
| Ingestion.Ingest | app.py:90-108 | corrected ingestion: a read exception leaves the store unchanged; otherwise the document's chunks are appended and the index is rebuilt aligned |
| Ingestion.IngestKeepsAlignment | app.py:90-108 | corrected ingestion never removes a chunk, preserves alignment, and ends with one vector per chunk after a successful read |
| Ingestion.PartialReadMisaligns | app.py:94-101 | as written, a read that fails after a page with text leaves more chunks than vectors |
| Ingestion.PartialReadExample | app.py:94-101 | a one-page document with "Revenue" whose read then raises leaves one chunk and no vector in an empty store |
| Ingestion.OneLineChunk | app.py:84-88 | a one-line text not starting with whitespace is exactly one chunk |
| Ingestion.DocumentChunksSound | app.py:94-98 | every appended chunk carries the run's quarter and a 1-based page number, and is a chunk of that page's text |
| Ingestion.DocumentChunksComplete | app.py:94-98 | every chunk of every page read is appended, tagged with its page |
| Ingestion.DocumentChunksOrdered | app.py:94-98 | appended chunks are in ascending page order |
| Ingestion.PageChunksSound | app.py:97-98 | a chunk of one page carries the quarter and page it was tagged with, and its text is a chunk of that page's text |
| Ingestion.PageChunksComplete | app.py:97-98 | every chunk of a page's text is among the page's tagged chunks |
| Ingestion.ChunkOfDocumentSound | app.py:94-98 | any one appended chunk carries the quarter, a page number of the document, and is a chunk of that page's text |
| Ingestion.ChunkOfPageListed | app.py:94-98 | a chunk of the i-th page is appended tagged with page number i + 1 |
| Retrieval.QueryUnstructured | app.py:232-243 | an empty index answers "No Data"; otherwise "No Relevant" exactly when no neighbour passes `idx != -1 and idx < len(chunks)`; otherwise the k-th passage is the chunk at the k-th passing neighbour, one passage per passing neighbour, in the order returned |
| Retrieval.Kept | app.py:239-240 | the passing neighbours are exactly the returned positions that are not -1 and below the chunk count, at most three, each a valid chunk position |
| Retrieval.QueryPassagesMembership | app.py:238-243 | in any store, aligned or not: the chunk at every passing neighbour is a passage, and every passage is the chunk at some passing neighbour |
| Retrieval.AlignedDropsNothing | app.py:238-241 | with the index aligned to the chunks, only the -1 fillers are dropped, and each passage is the chunk at the neighbour's position, in the order returned |
| Retrieval.SameFilter | app.py:238-241 | when every neighbour position is below the chunk count, the bound test `idx < len(chunks)` drops exactly the -1 fillers |
| Retrieval.IngestedNeighboursResolve | app.py:103-107 | in a store kept by the corrected ingestion, a query finds nothing only when the index returned no position at all |
| Retrieval.RestartAnswersNothing | app.py:75-82 | after a restart that loads a non-empty index, every question answers "No Relevant Information" |
| Periods.PeriodLeTotal | app.py:170 | any two rows are ordered by (year, quarter) |
| Periods.PeriodLeReflexive | app.py:170 | every row is ordered no later than itself |
| Periods.PeriodLeTransitive | app.py:170 | the (year, quarter) order is transitive |
| Periods.Insert | app.py:170 | inserting a row into a period-sorted sequence keeps it sorted and adds exactly that row |
| Periods.SortByPeriod | app.py:170 | `ORDER BY year, quarter` yields a sorted permutation of its rows |
| Periods.SortedLast | app.py:189-192 | the last row of a sorted series is of its latest period |
| Periods.MaxQuarter | app.py:211 | `MAX(quarter)` is NULL exactly on an empty table; otherwise it is a quarter of the table no smaller than any |
| Resolver.Classify | app.py:169-220 | a recognised intent's phrase test holds, and none is recognised exactly when no test holds |
| Resolver.Holds | app.py:169-220 | the six phrase tests of the `elif` chain on the lower-cased question |
| Resolver.ClassifyFirstInChain | app.py:169-220 | the branch entered is `Chain[k]` exactly when its test holds and no earlier test does |
| Resolver.MetricSeriesSpec | app.py:170 | the series is sorted by period, holds exactly the table rows of the metric, each as often as the table does |
| Resolver.MetricSeries | app.py:170 | `WHERE metric_name = ? ORDER BY year, quarter`: every row of the series is of the metric |
| Resolver.ExpenseRowsSpec | app.py:211 | a row is listed exactly when it is an Expense row whose quarter is no smaller than any quarter in the whole table |
| Resolver.ExpenseRows | app.py:211 | every listed row is an Expense row of the table |
| Resolver.Answer | app.py:169-227 | only a decrease has a follow-up, and it is "why " plus the latest quarter; a series answer is non-empty and comes from a series intent; a breakdown is non-empty |
| Resolver.QueryStructured | app.py:163-230 | an unrecognised question gets no answer and no follow-up; there is at most one follow-up, present exactly for a decrease |
| Resolver.SeriesAnswer | app.py:169-227 | a series answer holds every row of the intent's metric, as often as the table does and no other row, oldest period first |
| Resolver.SeriesAnswered | app.py:169-227 | a series intent answers exactly when its metric has at least one row |
| Resolver.DecreaseAnswer | app.py:189-197 | a decrease is reported exactly when there are at least two EBITDA Margin rows and the last in period order is strictly lower than the one before; the reported rows are those two |
| Resolver.DecreaseMeaning | app.py:189-197 | the reported rows are EBITDA Margin rows of the table, the latest is of the latest period, its value is lower, and the follow-up is "why " plus its quarter |
| Resolver.DecreaseOfIntent | app.py:189-197 | the decrease intent reports the pair (previous, latest) exactly when they are the last two rows of the EBITDA Margin series and the latest is lower |
| Resolver.LatestTwo | app.py:189-192 | the last two rows of a metric's series are that metric's table rows in period order, the last no earlier than any row of the metric |
| Resolver.BreakdownAnswer | app.py:210-217 | the breakdown is exactly the Expense rows of the greatest quarter of the whole table; there is no answer when that quarter has no Expense row |
| Resolver.FirstRuleDecides | app.py:169-175 | a net-profit trend question with no PAT row gets no answer even if it also asks for the revenue trend: later rules are not tried |
| Resolver.EvolutionShadowsDecrease | app.py:179-188 | a question with "margin" and "evolved" is never read as a margin-decrease question |
| Resolver.CaseInsensitive | app.py:166 | a question and its lower-cased form are resolved alike |
| Resolver.EmptyTableAnswersNothing | app.py:163-230 | on an empty table no question has a structured answer |
| Dispatch.Reasons | app.py:345-347 | one semantic answer per follow-up, in order |
| Dispatch.Respond | app.py:342-349 | the semantic answer is used exactly when there is no structured one; a structured reply carries at most one reason, and only for a decrease |
| Dispatch.DecreaseCarriesReason | app.py:342-347 | a decrease carries exactly the semantic answer to "why " plus its latest quarter; other structured answers carry none |
| Dispatch.UnrecognisedGoesToText | app.py:348-349 | a question no phrase rule recognises is answered by semantic search alone |
| Dispatch.FreshStartHasNoData | app.py:75-82 | with an empty table and a fresh empty index, every question answers "No Data Available" |

## Left out

- PDF reading (`pdfplumber`): foreign I/O. A read is given as the texts of the pages read and whether it raised.
- The regex engine (`re.search` with `re.IGNORECASE`) and `float()`: foreign library code. Both are oracle parameters; no pattern is interpreted.
- The sentence embedder and the FAISS L2 search: floating-point numerics in a foreign library. The embedder is a function to vectors, and the search is a function from a question to three neighbour positions.
- SQLite: the table is an in-memory sequence in row-id order. Connections, SQL text and `conn.close()` are left out. A crash is modelled as a rollback of the uncommitted DELETE and INSERTs.
- Extractor.Extract: `full_text` (app.py:118, 123) is built and never read, so it is not modelled.
- Periods.SortByPeriod: SQLite does not fix the order of rows with equal (year, quarter). The model places them in table order, and only sortedness and permutation are proved.
- Resolver.ExpenseRows: the query has no ORDER BY, so the order of the breakdown rows is not fixed by SQLite. The model lists them in table order.
- Formatting of answers: the Markdown text, number rendering and the `markdown2` HTML conversion are not modelled. An answer is kept as the rows or chunks it shows.
- Flask routes, templates, file upload and saving, and the catalog CRUD routes and seeding (app.py:26-71, 245-336): UI and storage glue with no logic beyond SQLite's UNIQUE constraint.
- Writing the index to disk (app.py:108): I/O. Startup takes the vectors read back as a parameter.
- Concurrency: the model is sequential. It does not cover races between requests that change the chunk list and the index.
- Extractor.YearOf: `\d` in Python also accepts non-ASCII decimal digits; the model accepts ASCII digits only.
- Text.Lower: only ASCII capitals and the two characters whose lower case contains an ASCII letter (U+212A, U+0130) are mapped. This is exact for the ASCII phrase tests, but not for the lower-cased text itself.
- Extractor.PairStep: `float()` (app.py:140) also accepts texts such as `nan` and `inf` and returns a NaN or an infinity; the model's parse yields reals only. SQLite stores a NaN as NULL, so such a row reads back with value `None`, and the comparison `latest[1] < previous[1]` (app.py:195) then raises a `TypeError` that `query_structured_data` does not catch. None of this is modelled.
- Extractor.ExtractReplacesQuarter: holds for real-valued parses only; for a NaN capture the returned row holds NaN while the stored row holds NULL (see the Extractor.PairStep line).
- Resolver.DecreaseAnswer: assumes every stored margin is a real; the NULL margin of a NaN capture and the crash it causes are not modelled (see the Extractor.PairStep line).
- Retrieval.QueryUnstructured: the `index is None` test (app.py:234) is never true and is not modelled. Importing the module binds the global name `index` to the view function `def index()` (app.py:245-247), and `load_or_create_index()` (app.py:357) rebinds it to the FAISS index before the server runs, so the name never holds `None`.

## Findings

| source | as written | input that shows it | evidently intended | confidence | as-written member | corrected member |
|---|---|---|---|---|---|---|
| app.py:94-101 | chunks of pages read before an exception stay appended, and the function returns without rebuilding the index | an empty store, then a document whose first page reads "Revenue" and whose second page raises: one chunk, no vector | a document that cannot be read leaves chunks and index unchanged, so the i-th vector embeds the i-th chunk | medium, not executed | Ingestion.IngestAsWritten (shown by Ingestion.PartialReadMisaligns, Ingestion.PartialReadExample) | Ingestion.Ingest (proved by Ingestion.IngestKeepsAlignment, used by Retrieval.IngestedNeighboursResolve) |
