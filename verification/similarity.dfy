/** Stages 1 to 3 of `perform_search`, shared by both searches: parse the
    query, score every stored embedding against the positive clause and,
    when there is one, penalise it by its similarity to the negative clause.

    Encoding a text and taking cosine similarities against the stored
    embeddings is one opaque step here, `Scorer`: it yields one similarity
    per stored row, or `None` when the model or the similarity computation
    raises, which sends both searches to their catch-all `except` and an
    empty result list. */
module Similarity {
  import opened Optional
  import opened QueryParser
  import opened Ranking

  /** Encode a text and compare it with every stored embedding. */
  type Scorer = string -> Option<seq<real>>

  /** All successful scorings cover the same embedding rows. */
  ghost predicate RowsAgree(sim: Scorer) {
    forall t, u :: sim(t).Some? && sim(u).Some? ==> |sim(t).value| == |sim(u).value|
  }

  /** The final score of every embedding row, or `None` when scoring raised.
      The negative clause is scored only when it is non-empty, as
      `if negative_query:` decides. */
  function FinalScores(parsed: ParsedQuery, sim: Scorer): (r: Option<seq<real>>)
    requires RowsAgree(sim)
    ensures r.Some? <==> sim(parsed.positive).Some? && (parsed.negative == "" || sim(parsed.negative).Some?)
    ensures r.Some? ==> |r.value| == |sim(parsed.positive).value|
  {
    match sim(parsed.positive)
    case None => None
    case Some(pos) =>
      if parsed.negative == "" then Some(Combine(pos, None))
      else
        match sim(parsed.negative)
        case None => None
        case Some(neg) => Some(Combine(pos, Some(neg)))
  }

  /** The final scores are the positive similarities when the query has no
      negative clause, and the positive minus the weighted negative
      similarities otherwise. */
  lemma FinalScoresValues(parsed: ParsedQuery, sim: Scorer, i: nat)
    requires RowsAgree(sim) && FinalScores(parsed, sim).Some?
    requires i < |FinalScores(parsed, sim).value|
    ensures parsed.negative == "" ==> FinalScores(parsed, sim).value[i] == sim(parsed.positive).value[i]
    ensures parsed.negative != "" ==>
      FinalScores(parsed, sim).value[i]
        == sim(parsed.positive).value[i] - sim(parsed.negative).value[i] * PenaltyWeight
  {
  }

  /** A query without a trigger phrase is scored as the whole query, with no
      penalty. */
  lemma PlainQueryScoresWhole(q: string, sim: Scorer)
    requires RowsAgree(sim) && NoMatch(Alternatives, q)
    ensures FinalScores(Parse(q), sim) == sim(q)
  {
  }
}
