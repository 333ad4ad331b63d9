/** The `/query` handler: the structured answer when there is one, with the
    text passages found for each of its follow-up questions; otherwise the
    text passages found for the question itself. */
module Dispatch {
  import opened Wrappers
  import opened Text
  import opened Records
  import opened Ingestion
  import opened Retrieval
  import opened Resolver

  /** What the page shows, before Markdown rendering: a structured answer
      followed by one "Possible Reason" section per follow-up, or the
      semantic answer alone. */
  datatype Reply =
    | StructuredReply(answer: Structured, reasons: seq<SemanticAnswer>)
    | SemanticReply(fallback: SemanticAnswer)

  /** The semantic answer to every question of `questions`, in order. */
  function Reasons(questions: seq<string>, s: Store, search: string -> Neighbours): (r: seq<SemanticAnswer>)
    ensures |r| == |questions|
    ensures forall k | 0 <= k < |r| :: r[k] == QueryUnstructured(s, search(questions[k]))
  {
    seq(|questions|, k requires 0 <= k < |questions| => QueryUnstructured(s, search(questions[k])))
  }

  /** The POST branch of `/query`. `search` stands for embedding a question
      and searching the vector index of `s` for its three nearest vectors. */
  function Respond(query: string, t: Table, s: Store, search: string -> Neighbours): (r: Reply)
    ensures r.SemanticReply? <==> QueryStructured(query, t).answer.None?
    ensures r.StructuredReply? ==> Some(r.answer) == QueryStructured(query, t).answer
    ensures r.StructuredReply? ==> |r.reasons| <= 1
    ensures r.StructuredReply? && r.reasons != [] ==> r.answer.Decrease?
  {
    var res := QueryStructured(query, t);
    if res.answer.Some? then StructuredReply(res.answer.value, Reasons(res.followUps, s, search))
    else SemanticReply(QueryUnstructured(s, search(query)))
  }

  /** A reported margin decrease carries exactly one reason section: what the
      text says for "why <latest quarter>". Every other structured answer
      carries none. */
  lemma DecreaseCarriesReason(query: string, t: Table, s: Store, search: string -> Neighbours)
    requires QueryStructured(query, t).answer.Some?
    ensures var r := Respond(query, t, s, search);
      r.StructuredReply? &&
      (r.answer.Decrease? ==>
        r.reasons == [QueryUnstructured(s, search(WhyQuestion(r.answer.latest.quarter)))]) &&
      (!r.answer.Decrease? ==> r.reasons == [])
  {
  }

  /** A question no phrase rule recognises is answered from the text alone. */
  lemma UnrecognisedGoesToText(query: string, t: Table, s: Store, search: string -> Neighbours)
    requires forall i: Intent :: !Holds(i, Lower(query))
    ensures Respond(query, t, s, search) == SemanticReply(QueryUnstructured(s, search(query)))
  {
  }

  /** Before any report has been processed (empty table, empty index) every
      question answers "No Data Available". */
  lemma FreshStartHasNoData(query: string, search: string -> Neighbours)
    ensures Respond(query, [], Startup(None), search) == SemanticReply(NoData)
  {
    EmptyTableAnswersNothing(query);
  }
}
