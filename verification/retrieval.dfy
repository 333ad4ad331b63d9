/** The semantic side of a query (`query_unstructured_data`): the index is
    searched for the k = 3 nearest vectors, and the positions it returns are
    turned into passages. The embedding of the query and the L2 search are
    an oracle; what is modelled is how their answer is filtered. */
module Retrieval {
  import opened Wrappers
  import opened Seqs
  import opened Ingestion
  import Pdf

  /** Neighbours asked of the index. */
  const K: nat := 3

  /** The row `I[0]` of a FAISS search: K positions, -1 where the index had
      fewer than K vectors. FAISS returns no other negative value. */
  type Neighbours = ids: seq<int> | |ids| == K && forall i | 0 <= i < |ids| :: ids[i] >= -1
    witness [-1, -1, -1]

  /** The three outcomes: no index content ("# No Data Available"), no usable
      neighbour ("# No Relevant Information"), or the passages listed under
      "# Relevant Information", each with its quarter and page. */
  datatype SemanticAnswer = NoData | NoRelevant | Relevant(passages: seq<Chunk>)

  /** A neighbour is kept when it is a position (not -1) below the length of
      the chunk list. */
  predicate Resolves(id: int, chunkCount: nat) {
    id != -1 && id < chunkCount
  }

  /** The neighbours that pass `idx != -1 and idx < len(chunks)`, in the
      order the index returned them. */
  function Kept(ids: Neighbours, chunkCount: nat): (r: seq<int>)
    ensures |r| <= K
    ensures forall k | 0 <= k < |r| :: 0 <= r[k] < chunkCount
    ensures forall id :: id in r <==> id in ids && Resolves(id, chunkCount)
  {
    Filter(ids, (id: int) => Resolves(id, chunkCount))
  }

  /** `query_unstructured_data` given the index's answer `ids`. */
  function QueryUnstructured(s: Store, ids: Neighbours): (a: SemanticAnswer)
    ensures a.NoData? <==> |s.index| == 0
    ensures a.NoRelevant? <==> |s.index| > 0 && forall i | 0 <= i < K :: !Resolves(ids[i], |s.chunks|)
    ensures a.Relevant? ==> 0 < |a.passages| <= K
    ensures a.Relevant? ==> forall p | p in a.passages :: p in s.chunks
    ensures a.Relevant? ==>
      var kept := Kept(ids, |s.chunks|);
      |a.passages| == |kept| && forall k | 0 <= k < |kept| :: a.passages[k] == s.chunks[kept[k]]
  {
    if |s.index| == 0 then NoData
    else
      var kept := Kept(ids, |s.chunks|);
      assert (exists i | 0 <= i < K :: Resolves(ids[i], |s.chunks|)) ==> |kept| > 0 by {
        if exists i | 0 <= i < K :: Resolves(ids[i], |s.chunks|) {
          var i :| 0 <= i < K && Resolves(ids[i], |s.chunks|);
          assert ids[i] in kept;
        }
      }
      if |kept| == 0 then NoRelevant
      else
        assert kept[0] in ids && Resolves(kept[0], |s.chunks|);
        Relevant(seq(|kept|, k requires 0 <= k < |kept| => s.chunks[kept[k]]))
  }

  /** Whatever the store (aligned or not), the passages are exactly the
      chunks at the neighbour positions that pass the test: each such
      chunk is listed, and nothing else is. */
  lemma QueryPassagesMembership(s: Store, ids: Neighbours)
    requires |s.index| > 0
    ensures forall i | 0 <= i < K && Resolves(ids[i], |s.chunks|) ::
      QueryUnstructured(s, ids).Relevant? && s.chunks[ids[i]] in QueryUnstructured(s, ids).passages
    ensures QueryUnstructured(s, ids).Relevant? ==>
      forall p | p in QueryUnstructured(s, ids).passages ::
        exists i | 0 <= i < K :: Resolves(ids[i], |s.chunks|) && p == s.chunks[ids[i]]
  {
    var a := QueryUnstructured(s, ids);
    var kept := Kept(ids, |s.chunks|);
    forall i | 0 <= i < K && Resolves(ids[i], |s.chunks|) ensures a.Relevant? && s.chunks[ids[i]] in a.passages {
      assert ids[i] in kept;
      var k :| 0 <= k < |kept| && kept[k] == ids[i];
      assert a.passages[k] == s.chunks[ids[i]];
    }
    if a.Relevant? {
      forall p | p in a.passages ensures exists i | 0 <= i < K :: Resolves(ids[i], |s.chunks|) && p == s.chunks[ids[i]] {
        var k :| 0 <= k < |a.passages| && a.passages[k] == p;
        assert kept[k] in ids;
        var i :| 0 <= i < K && ids[i] == kept[k];
      }
    }
  }

  /** With the index aligned to the chunk list, only the -1 fillers are
      dropped: every real neighbour the index returns becomes a passage, in
      the order returned, and it is the chunk the vector was made from. */
  lemma AlignedDropsNothing(s: Store, embed: string -> Vector, ids: Neighbours)
    requires Aligned(s, embed) && |s.index| > 0
    requires forall i | 0 <= i < K :: ids[i] < |s.index|
    ensures QueryUnstructured(s, ids).NoRelevant? <==> forall i | 0 <= i < K :: ids[i] == -1
    ensures QueryUnstructured(s, ids).Relevant? ==>
      var found := Filter(ids, (id: int) => id != -1);
      var a := QueryUnstructured(s, ids);
      |a.passages| == |found| &&
      forall k | 0 <= k < |found| :: 0 <= found[k] < |s.chunks| && a.passages[k] == s.chunks[found[k]]
  {
    SameFilter(ids, |s.chunks|);
  }

  lemma {:induction false} SameFilter(ids: seq<int>, n: nat)
    requires forall i | 0 <= i < |ids| :: ids[i] < n
    ensures Filter(ids, (id: int) => Resolves(id, n)) == Filter(ids, (id: int) => id != -1)
    decreases |ids|
  {
    if |ids| > 0 {
      SameFilter(ids[1..], n);
    }
  }

  /** After a restart that read a non-empty index back from disk, the chunk
      list is empty, so every question answers "No Relevant Information". */
  lemma RestartAnswersNothing(persisted: seq<Vector>, ids: Neighbours)
    requires |persisted| > 0
    ensures QueryUnstructured(Startup(Some(persisted)), ids) == NoRelevant
  {
  }

  /** Into a store kept by the corrected ingestion, every neighbour the
      index can return other than the -1 filler names a chunk, so a query
      finds nothing only when the index returned no position at all. */
  lemma IngestedNeighboursResolve(s: Store, doc: Pdf.PdfRead, quarter: string, embed: string -> Vector, ids: Neighbours)
    requires Aligned(s, embed)
    requires forall i | 0 <= i < K :: ids[i] < |Ingest(s, doc, quarter, embed).index|
    ensures var r := Ingest(s, doc, quarter, embed);
      |r.index| > 0 ==> (QueryUnstructured(r, ids).NoRelevant? <==> forall i | 0 <= i < K :: ids[i] == -1)
  {
    var r := Ingest(s, doc, quarter, embed);
    IngestKeepsAlignment(s, doc, quarter, embed);
    if |r.index| > 0 {
      AlignedDropsNothing(r, embed, ids);
    }
  }
}
