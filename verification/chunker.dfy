/** The paragraph chunker (`chunk_text`): page text is cut at blank lines,
    each piece is trimmed, and empty pieces are dropped. */
module Chunker {
  import opened Wrappers
  import opened Seqs
  import opened Text

  /** The blank-line boundary the text is split on. */
  const ParagraphBreak: string := "\n\n"

  /** The stripped pieces of the blank-line split, in order. */
  function Candidates(t: string): (r: seq<string>)
    ensures |r| == |Split(t, ParagraphBreak)|
    ensures forall k | 0 <= k < |r| :: IsStripped(r[k])
  {
    Map(Split(t, ParagraphBreak), Strip)
  }

  predicate NonBlank(c: string) {
    c != ""
  }

  /** `chunk_text(text)`. An absent or empty text gives no chunks; otherwise
      the pieces of `text.split("\n\n")`, stripped, empty ones left out. */
  function ChunkText(text: Option<string>): (r: seq<string>)
    ensures text == None || text == Some("") ==> r == []
    ensures forall k | 0 <= k < |r| :: r[k] != "" && IsStripped(r[k])
  {
    match text
    case None => []
    case Some(t) =>
      if t == "" then []
      else
        var r := Filter(Candidates(t), NonBlank);
        assert forall k | 0 <= k < |r| :: IsStripped(r[k]) by {
          forall k | 0 <= k < |r| ensures IsStripped(r[k]) {
            assert r[k] in Candidates(t);
          }
        }
        r
  }

  /** The empty text splits into one empty piece. */
  lemma CandidatesOfEmpty()
    ensures Candidates("") == [""]
  {
    assert !OccursAt("", ParagraphBreak, 0);
    assert Find("", ParagraphBreak, 0) == None;
    assert Split("", ParagraphBreak) == [""];
  }

  /** Stated for any separator, so that the proof does not unfold the
      split of a literal separator. */
  lemma StrippedPieceMembership(s: string, sep: string, c: string)
    requires |sep| > 0
    ensures c in Map(Split(s, sep), Strip) <==>
      exists k | 0 <= k < |Split(s, sep)| :: Strip(Split(s, sep)[k]) == c
  {
    MapMembership(Split(s, sep), Strip, c);
  }

  /** A candidate is exactly the stripped form of some piece. */
  lemma CandidateMembership(t: string, c: string)
    ensures c in Candidates(t) <==>
      exists k | 0 <= k < |Split(t, ParagraphBreak)| :: Strip(Split(t, ParagraphBreak)[k]) == c
  {
    StrippedPieceMembership(t, ParagraphBreak, c);
  }

  /** A chunk is exactly a non-empty stripped piece of the blank-line split. */
  lemma ChunkMembership(t: string, c: string)
    ensures c in ChunkText(Some(t)) <==>
      c != "" && exists k | 0 <= k < |Split(t, ParagraphBreak)| :: Strip(Split(t, ParagraphBreak)[k]) == c
  {
    ChunkTextFilters(t);
    assert c in ChunkText(Some(t)) <==> c in Candidates(t) && c != "";
    CandidateMembership(t, c);
  }

  /** Chunks keep the order of the pieces they come from: the result is the
      sequence of stripped pieces with some (the empty ones) deleted. */
  lemma ChunkOrder(t: string)
    ensures IsSubsequence(ChunkText(Some(t)), Candidates(t))
  {
    FilterIsSubsequence(Candidates(t), NonBlank);
    if t == "" {
      CandidatesOfEmpty();
    }
  }

  /** A slice of a string that holds no occurrence of `t` holds none either. */
  lemma SliceAvoids(s: string, t: string, i: nat, j: nat)
    requires i <= j <= |s|
    requires !Contains(s, t)
    ensures !Contains(s[i..j], t)
  {
    var w := s[i..j];
    forall k: nat | k <= |w| ensures !OccursAt(w, t, k) {
      if k + |t| <= |w| {
        var a, b := w[k..k + |t|], s[i + k..i + k + |t|];
        forall m | 0 <= m < |t| ensures a[m] == b[m] {
          assert a[m] == w[k + m] == s[i + k + m];
        }
        assert a == b;
        assert !OccursAt(s, t, i + k);
      }
    }
  }

  /** No chunk spans a blank line. */
  lemma ChunkHasNoBreak(t: string)
    ensures forall c | c in ChunkText(Some(t)) :: !Contains(c, ParagraphBreak)
  {
    var parts := Split(t, ParagraphBreak);
    SplitPieces(t, ParagraphBreak);
    forall c | c in ChunkText(Some(t)) ensures !Contains(c, ParagraphBreak) {
      ChunkMembership(t, c);
      var k :| 0 <= k < |parts| && Strip(parts[k]) == c;
      var i, j := StripFrames(parts[k]);
      SliceAvoids(parts[k], ParagraphBreak, i, j);
    }
  }

  /** Text without a blank line is a single chunk, its stripped self,
      unless it is all whitespace. */
  lemma SingleParagraph(t: string)
    requires !Contains(t, ParagraphBreak)
    ensures ChunkText(Some(t)) == if AllSpace(t) then [] else [Strip(t)]
  {
    assert Find(t, ParagraphBreak, 0) == None;
    assert Split(t, ParagraphBreak) == [t];
    assert Candidates(t) == [Strip(t)];
    if t == "" {
      assert AllSpace(t);
    }
  }

  /** Splitting text that opens with such a paragraph cuts right after it. */
  lemma SplitFirstParagraph(a: string, b: string)
    requires !Contains(a + "\n", ParagraphBreak)
    ensures Split(a + ParagraphBreak + b, ParagraphBreak) == [a] + Split(b, ParagraphBreak)
  {
    var s := a + ParagraphBreak + b;
    assert OccursAt(s, ParagraphBreak, |a|) by {
      assert s[|a|..|a| + 2] == ParagraphBreak;
    }
    forall j: nat | j < |a| ensures !OccursAt(s, ParagraphBreak, j) {
      assert !OccursAt(a + "\n", ParagraphBreak, j);
    }
    FindLeftmost(s, ParagraphBreak, 0, |a|);
    assert s[..|a|] == a;
    assert s[|a| + 2..] == b;
  }

  /** A paragraph without a blank line and not ending in a newline is one piece. */
  lemma SplitSingle(a: string)
    requires !Contains(a + "\n", ParagraphBreak)
    ensures Split(a, ParagraphBreak) == [a]
  {
    assert !Contains(a, ParagraphBreak) by {
      SliceAvoids(a + "\n", ParagraphBreak, 0, |a|);
      assert (a + "\n")[0..|a|] == a;
    }
    assert Find(a, ParagraphBreak, 0) == None;
  }

  /** Paragraphs are chunked independently: text that opens with a
      paragraph `a` (no blank line inside, not ending in a newline) followed
      by a blank line chunks as `a` alone, then the remainder. */
  lemma ChunkConcat(a: string, b: string)
    requires !Contains(a + "\n", ParagraphBreak)
    ensures ChunkText(Some(a + ParagraphBreak + b)) == ChunkText(Some(a)) + ChunkText(Some(b))
  {
    var s := a + ParagraphBreak + b;
    CandidatesConcat(a, b);
    ChunkTextFilters(s);
    ChunkTextFilters(a);
    ChunkTextFilters(b);
    FilterAppend(Candidates(a), Candidates(b), NonBlank);
  }

  lemma CandidatesConcat(a: string, b: string)
    requires !Contains(a + "\n", ParagraphBreak)
    ensures Candidates(a + ParagraphBreak + b) == Candidates(a) + Candidates(b)
  {
    SplitFirstParagraph(a, b);
    SplitSingle(a);
    MapAppend([a], Split(b, ParagraphBreak), Strip);
  }

  /** For every text, present or empty, the chunks are the non-blank candidates. */
  lemma ChunkTextFilters(t: string)
    ensures ChunkText(Some(t)) == Filter(Candidates(t), NonBlank)
  {
    if t == "" {
      CandidatesOfEmpty();
      assert Filter([""], NonBlank) == [];
    }
  }
}
