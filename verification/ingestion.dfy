/** Chunk and index bookkeeping of `store_unstructured_data`: the process
    keeps a list of chunks tagged (quarter, page) and a flat L2 index whose
    i-th vector is meant to embed the i-th chunk. The embedder is an
    oracle mapping a text to its vector. */
module Ingestion {
  import opened Wrappers
  import opened Seqs
  import opened Chunker
  import opened Pdf
  import opened Text

  /** One entry of the global `chunks` list: `(text, quarter, page_num)`. */
  datatype Chunk = Chunk(text: string, quarter: string, page: nat)

  type Vector = seq<real>

  /** The global `chunks` list together with the vectors of the index. */
  datatype Store = Store(chunks: seq<Chunk>, index: seq<Vector>)

  /** The index holds one vector per chunk, the i-th embedding the i-th
      chunk's text. */
  predicate Aligned(s: Store, embed: string -> Vector) {
    |s.index| == |s.chunks| && forall i | 0 <= i < |s.chunks| :: s.index[i] == embed(s.chunks[i].text)
  }

  /** `load_or_create_index`: the vectors read back from disk when the index
      file exists, an empty index otherwise; the chunk list always starts
      empty. */
  function Startup(persisted: Option<seq<Vector>>): (s: Store)
    ensures s.chunks == []
    ensures |s.index| == |persisted.GetOr([])|
  {
    Store([], persisted.GetOr([]))
  }

  /** The chunks of page number `page`, tagged with the quarter and page. */
  function PageChunks(text: Option<string>, quarter: string, page: nat): (r: seq<Chunk>)
    ensures |r| == |ChunkText(text)|
    ensures forall k | 0 <= k < |r| ::
      r[k].text == ChunkText(text)[k] && r[k].quarter == quarter && r[k].page == page
  {
    Map(ChunkText(text), (c: string) => Chunk(c, quarter, page))
  }

  /** The chunks of every page read, pages in document order, numbered
      from 1 by their place in the document. */
  function DocumentChunks(pages: seq<Option<string>>, quarter: string): (r: seq<Chunk>)
    ensures forall k | 0 <= k < |r| :: r[k].quarter == quarter && 1 <= r[k].page <= |pages|
    decreases |pages|
  {
    if |pages| == 0 then []
    else DocumentChunks(pages[..|pages| - 1], quarter) + PageChunks(pages[|pages| - 1], quarter, |pages|)
  }

  /** `embedder.encode([c[0] for c in chunks])`: one vector per chunk, in order. */
  function EmbedAll(chunks: seq<Chunk>, embed: string -> Vector): (vs: seq<Vector>)
    ensures |vs| == |chunks|
    ensures forall i | 0 <= i < |chunks| :: vs[i] == embed(chunks[i].text)
  {
    Map(chunks, (c: Chunk) => embed(c.text))
  }

  /** `store_unstructured_data` as written: the chunks of every page read are
      appended before any exception is seen; on an exception the function
      returns without rebuilding the index, otherwise the index is rebuilt
      from the whole chunk list. */
  function IngestAsWritten(s: Store, doc: PdfRead, quarter: string, embed: string -> Vector): (r: Store)
    ensures r.chunks == s.chunks + DocumentChunks(doc.pages, quarter)
    ensures doc.raised ==> r.index == s.index
    ensures !doc.raised ==> Aligned(r, embed)
  {
    var chunks := s.chunks + DocumentChunks(doc.pages, quarter);
    if doc.raised then Store(chunks, s.index)
    else Store(chunks, EmbedAll(chunks, embed))
  }

  /** Ingestion with the failure made atomic: an exception while reading
      leaves chunks and index as they were; otherwise the document's chunks
      are appended and the index rebuilt from the whole chunk list. */
  function Ingest(s: Store, doc: PdfRead, quarter: string, embed: string -> Vector): (r: Store)
    ensures doc.raised ==> r == s
    ensures !doc.raised ==> r.chunks == s.chunks + DocumentChunks(doc.pages, quarter)
    ensures !doc.raised ==> Aligned(r, embed)
  {
    if doc.raised then s
    else
      var chunks := s.chunks + DocumentChunks(doc.pages, quarter);
      Store(chunks, EmbedAll(chunks, embed))
  }

  /** Ingestion never removes or reorders a chunk, and it keeps index and
      chunk list aligned: a run from an aligned store ends aligned, and a
      successful run ends aligned from any store. */
  lemma IngestKeepsAlignment(s: Store, doc: PdfRead, quarter: string, embed: string -> Vector)
    ensures s.chunks <= Ingest(s, doc, quarter, embed).chunks
    ensures Aligned(s, embed) ==> Aligned(Ingest(s, doc, quarter, embed), embed)
    ensures !doc.raised ==> |Ingest(s, doc, quarter, embed).index| == |Ingest(s, doc, quarter, embed).chunks|
  {
  }

  /** As written, a read that fails after some page with text leaves chunks
      the index has no vector for. */
  lemma PartialReadMisaligns(s: Store, doc: PdfRead, quarter: string, embed: string -> Vector)
    requires Aligned(s, embed)
    requires doc.raised && DocumentChunks(doc.pages, quarter) != []
    ensures !Aligned(IngestAsWritten(s, doc, quarter, embed), embed)
    ensures |IngestAsWritten(s, doc, quarter, embed).index| < |IngestAsWritten(s, doc, quarter, embed).chunks|
  {
  }

  /** A concrete case: into the empty store, a document whose first page
      reads "Revenue" and whose second page raises. */
  lemma PartialReadExample(embed: string -> Vector)
    ensures var r := IngestAsWritten(Store([], []), PdfRead([Some("Revenue")], true), "FY24Q1", embed);
      |r.chunks| == 1 && |r.index| == 0
  {
    var t := "Revenue";
    var pages := [Some(t)];
    OneLineChunk(t);
    assert pages[..0] == [];
    assert |DocumentChunks(pages, "FY24Q1")| == |PageChunks(Some(t), "FY24Q1", 1)|;
  }

  /** A one-line text that does not start with whitespace is one chunk. */
  lemma OneLineChunk(t: string)
    requires |t| > 0 && !IsSpace(t[0])
    requires forall i | 0 <= i < |t| :: t[i] != '\n'
    ensures |ChunkText(Some(t))| == 1
  {
    NoNewlineNoBreak(t);
    SingleParagraph(t);
  }

  /** Text without a newline character holds no blank line. */
  lemma NoNewlineNoBreak(t: string)
    requires forall i | 0 <= i < |t| :: t[i] != '\n'
    ensures !Contains(t, ParagraphBreak)
  {
    forall i: nat | i <= |t| ensures !OccursAt(t, ParagraphBreak, i) {
      if i + 2 <= |t| {
        assert t[i..i + 2][0] == t[i];
      }
    }
  }

  /** Every chunk of a document carries the quarter, a page number of the
      document, and a chunk of that page's text. */
  lemma DocumentChunksSound(pages: seq<Option<string>>, quarter: string)
    ensures forall c | c in DocumentChunks(pages, quarter) ::
      c.quarter == quarter && 1 <= c.page <= |pages| && c.text in ChunkText(pages[c.page - 1])
  {
    forall c | c in DocumentChunks(pages, quarter)
      ensures c.quarter == quarter && 1 <= c.page <= |pages| && c.text in ChunkText(pages[c.page - 1])
    {
      ChunkOfDocumentSound(pages, quarter, c);
    }
  }

  lemma {:induction false} ChunkOfDocumentSound(pages: seq<Option<string>>, quarter: string, c: Chunk)
    requires c in DocumentChunks(pages, quarter)
    ensures c.quarter == quarter && 1 <= c.page <= |pages| && c.text in ChunkText(pages[c.page - 1])
    decreases |pages|
  {
    var n := |pages|;
    var init := pages[..n - 1];
    assert DocumentChunks(pages, quarter) == DocumentChunks(init, quarter) + PageChunks(pages[n - 1], quarter, n);
    if c in DocumentChunks(init, quarter) {
      ChunkOfDocumentSound(init, quarter, c);
      assert init[c.page - 1] == pages[c.page - 1];
    } else {
      PageChunksSound(pages[n - 1], quarter, n, c);
    }
  }

  /** A chunk of a page carries the quarter and page it was tagged with,
      and its text is a chunk of the page's text. */
  lemma PageChunksSound(text: Option<string>, quarter: string, page: nat, c: Chunk)
    requires c in PageChunks(text, quarter, page)
    ensures c.quarter == quarter && c.page == page && c.text in ChunkText(text)
  {
    var pc := PageChunks(text, quarter, page);
    var k :| 0 <= k < |pc| && pc[k] == c;
    assert c.text == ChunkText(text)[k];
  }

  lemma PageChunksComplete(text: Option<string>, quarter: string, page: nat)
    ensures forall c | c in ChunkText(text) :: Chunk(c, quarter, page) in PageChunks(text, quarter, page)
  {
    var texts := ChunkText(text);
    forall c | c in texts ensures Chunk(c, quarter, page) in PageChunks(text, quarter, page) {
      var k :| 0 <= k < |texts| && texts[k] == c;
      assert PageChunks(text, quarter, page)[k] == Chunk(c, quarter, page);
    }
  }

  /** A chunk of page `i` is among the document's chunks. */
  lemma ChunkOfPageListed(pages: seq<Option<string>>, quarter: string, i: nat, c: string)
    requires i < |pages| && c in ChunkText(pages[i])
    ensures Chunk(c, quarter, i + 1) in DocumentChunks(pages, quarter)
  {
    PageChunksComplete(pages[i], quarter, i + 1);
    TaggedChunkListed(pages, quarter, i, Chunk(c, quarter, i + 1));
  }

  /** Stated over the tagged page chunks, so that the induction never
      looks inside the chunker. */
  lemma {:induction false} TaggedChunkListed(pages: seq<Option<string>>, quarter: string, i: nat, x: Chunk)
    requires i < |pages| && x in PageChunks(pages[i], quarter, i + 1)
    ensures x in DocumentChunks(pages, quarter)
    decreases |pages|
  {
    if i < |pages| - 1 {
      PrefixPage(pages, quarter, i, x);
      TaggedChunkListed(pages[..|pages| - 1], quarter, i, x);
      ListedFromPrefix(pages, quarter, x);
    } else {
      ListedFromLastPage(pages, quarter, x);
    }
  }

  lemma DocumentChunksSnoc(pages: seq<Option<string>>, quarter: string)
    requires |pages| > 0
    ensures DocumentChunks(pages, quarter) ==
      DocumentChunks(pages[..|pages| - 1], quarter) + PageChunks(pages[|pages| - 1], quarter, |pages|)
  {
  }

  lemma PrefixPage(pages: seq<Option<string>>, quarter: string, i: nat, x: Chunk)
    requires i < |pages| - 1 && x in PageChunks(pages[i], quarter, i + 1)
    ensures x in PageChunks(pages[..|pages| - 1][i], quarter, i + 1)
  {
    assert pages[..|pages| - 1][i] == pages[i];
  }

  lemma ListedFromLastPage(pages: seq<Option<string>>, quarter: string, x: Chunk)
    requires |pages| > 0 && x in PageChunks(pages[|pages| - 1], quarter, |pages|)
    ensures x in DocumentChunks(pages, quarter)
  {
    DocumentChunksSnoc(pages, quarter);
    InRight(DocumentChunks(pages[..|pages| - 1], quarter), PageChunks(pages[|pages| - 1], quarter, |pages|), x);
  }

  lemma ListedFromPrefix(pages: seq<Option<string>>, quarter: string, x: Chunk)
    requires |pages| > 0 && x in DocumentChunks(pages[..|pages| - 1], quarter)
    ensures x in DocumentChunks(pages, quarter)
  {
    DocumentChunksSnoc(pages, quarter);
    InLeft(DocumentChunks(pages[..|pages| - 1], quarter), PageChunks(pages[|pages| - 1], quarter, |pages|), x);
  }

  lemma InLeft(front: seq<Chunk>, last: seq<Chunk>, x: Chunk)
    requires x in front
    ensures x in front + last
  {
  }

  lemma InRight(front: seq<Chunk>, last: seq<Chunk>, x: Chunk)
    requires x in last
    ensures x in front + last
  {
  }

  /** Every chunk of every page of the document is in the result, tagged
      with the quarter and the page's 1-based number. */
  lemma DocumentChunksComplete(pages: seq<Option<string>>, quarter: string)
    ensures forall i, c | 0 <= i < |pages| && c in ChunkText(pages[i]) ::
      Chunk(c, quarter, i + 1) in DocumentChunks(pages, quarter)
  {
    forall i, c | 0 <= i < |pages| && c in ChunkText(pages[i])
      ensures Chunk(c, quarter, i + 1) in DocumentChunks(pages, quarter)
    {
      ChunkOfPageListed(pages, quarter, i, c);
    }
  }

  /** Chunks come in page order. */
  lemma {:induction false} DocumentChunksOrdered(pages: seq<Option<string>>, quarter: string)
    ensures forall a, b | 0 <= a < b < |DocumentChunks(pages, quarter)| ::
      DocumentChunks(pages, quarter)[a].page <= DocumentChunks(pages, quarter)[b].page
    decreases |pages|
  {
    if |pages| > 0 {
      var n := |pages|;
      var init := DocumentChunks(pages[..n - 1], quarter);
      var last := PageChunks(pages[n - 1], quarter, n);
      DocumentChunksOrdered(pages[..n - 1], quarter);
      DocumentChunksSound(pages[..n - 1], quarter);
      var all := init + last;
      forall a, b | 0 <= a < b < |all| ensures all[a].page <= all[b].page {
        if a < |init| {
          assert all[a] in init;
        }
      }
    }
  }
}
