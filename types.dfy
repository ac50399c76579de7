/** The entities of a decision matrix (src/types.ts). Weights, ratings and
    totals are integers: every value the application stores is an integer and
    every derived value is a product or a sum of integers. */
module Types {

  datatype Option<+T> = None | Some(value: T)

  /** A weighted factor. The weight is whatever the number field held. */
  datatype Criterion = Criterion(id: string, name: string, weight: int)

  /** One of the options being compared. */
  datatype Alternative = Alternative(id: string, name: string)

  /** A rating of one alternative against one criterion; 0 is "unrated". */
  datatype Score = Score(criterionId: string, alternativeId: string, value: int)

  /** One line of an alternative's breakdown. */
  datatype CriterionScore = CriterionScore(criterionName: string, rawScore: int, weightedScore: int)

  /** A row of the ranking produced by the scoring engine. */
  datatype WeightedScore = WeightedScore(
    alternativeId: string,
    alternativeName: string,
    totalScore: int,
    rank: int,
    criterionScores: seq<CriterionScore>)

  /** The four stages of the workflow, in workflow order. */
  datatype Step = Criteria | Alternatives | Scoring | Results

  /** The caps on the two collections; the step components and the validator
      both use these numbers. */
  const MaxCriteria: nat := 10
  const MaxAlternatives: nat := 3

  function CriterionIds(criteria: seq<Criterion>): seq<string>
  {
    seq(|criteria|, k requires 0 <= k < |criteria| => criteria[k].id)
  }

  function AlternativeIds(alternatives: seq<Alternative>): seq<string>
  {
    seq(|alternatives|, k requires 0 <= k < |alternatives| => alternatives[k].id)
  }

  /** True when no string occurs twice in the list. */
  predicate Distinct(xs: seq<string>) {
    forall i, j :: 0 <= i < j < |xs| ==> xs[i] != xs[j]
  }

  /** True when no two entries of the list share an id. */
  predicate DistinctCriterionIds(cs: seq<Criterion>) {
    Distinct(CriterionIds(cs))
  }

  predicate DistinctAlternativeIds(alts: seq<Alternative>) {
    Distinct(AlternativeIds(alts))
  }

  /** Distinct criterion ids, stated on the entries themselves. */
  lemma DistinctCriterionIdsIff(cs: seq<Criterion>)
    ensures DistinctCriterionIds(cs) <==> forall i, j :: 0 <= i < j < |cs| ==> cs[i].id != cs[j].id
  {
    var ids := CriterionIds(cs);
    assert forall k :: 0 <= k < |cs| ==> ids[k] == cs[k].id;
  }

  /** Two entries of a list with distinct ids have different ids. */
  lemma CriterionIdsDiffer(cs: seq<Criterion>, i: nat, j: nat)
    requires DistinctCriterionIds(cs) && i < |cs| && j < |cs| && i != j
    ensures cs[i].id != cs[j].id
  {
    assert CriterionIds(cs)[i] == cs[i].id && CriterionIds(cs)[j] == cs[j].id;
  }

  /** A prefix of a list with distinct ids has distinct ids. */
  lemma DistinctCriterionPrefix(cs: seq<Criterion>, n: nat)
    requires DistinctCriterionIds(cs) && n <= |cs|
    ensures DistinctCriterionIds(cs[..n])
  {
    assert CriterionIds(cs[..n]) == CriterionIds(cs)[..n];
  }

  /** Distinct alternative ids, stated on the entries themselves. */
  lemma DistinctAlternativeIdsIff(alts: seq<Alternative>)
    ensures DistinctAlternativeIds(alts) <==> forall i, j :: 0 <= i < j < |alts| ==> alts[i].id != alts[j].id
  {
    var ids := AlternativeIds(alts);
    assert forall k :: 0 <= k < |alts| ==> ids[k] == alts[k].id;
  }
}
