/** Lookups on the list of ratings, keyed on the pair (criterionId,
    alternativeId): `findIndex`, `find` and `some` with the same matching
    predicate, as the scoring step and the engine use them. */
module Ratings {
  import opened Types

  predicate IsFor(s: Score, criterionId: string, alternativeId: string) {
    s.criterionId == criterionId && s.alternativeId == alternativeId
  }

  /** `findIndex`: the first index holding a record for the pair, or -1. */
  function FindScoreIndex(scores: seq<Score>, criterionId: string, alternativeId: string): (r: int)
    ensures -1 <= r < |scores|
    ensures r == -1 <==> forall k :: 0 <= k < |scores| ==> !IsFor(scores[k], criterionId, alternativeId)
    ensures r >= 0 ==> IsFor(scores[r], criterionId, alternativeId)
    ensures r >= 0 ==> forall k :: 0 <= k < r ==> !IsFor(scores[k], criterionId, alternativeId)
  {
    if scores == [] then -1
    else if IsFor(scores[0], criterionId, alternativeId) then 0
    else
      var r := FindScoreIndex(scores[1..], criterionId, alternativeId);
      if r == -1 then -1 else r + 1
  }

  /** `find`: the first record for the pair, if there is one. */
  function FindScore(scores: seq<Score>, criterionId: string, alternativeId: string): (r: Option<Score>)
    ensures r.None? <==> FindScoreIndex(scores, criterionId, alternativeId) == -1
    ensures r.Some? ==> r.value == scores[FindScoreIndex(scores, criterionId, alternativeId)]
  {
    if scores == [] then None
    else if IsFor(scores[0], criterionId, alternativeId) then Some(scores[0])
    else FindScore(scores[1..], criterionId, alternativeId)
  }

  /** `some`: whether a record for the pair is present, whatever its value. */
  predicate HasScore(scores: seq<Score>, criterionId: string, alternativeId: string)
  {
    exists k | 0 <= k < |scores| :: IsFor(scores[k], criterionId, alternativeId)
  }

  /** `score?.value || 0`: the value of the first record for the pair, or 0
      when there is none. (For an integer value, `v || 0` is v.) */
  function GetScore(scores: seq<Score>, criterionId: string, alternativeId: string): (v: int)
    ensures !HasScore(scores, criterionId, alternativeId) ==> v == 0
    ensures HasScore(scores, criterionId, alternativeId) ==>
      v == scores[FindScoreIndex(scores, criterionId, alternativeId)].value
  {
    match FindScore(scores, criterionId, alternativeId)
    case None => 0
    case Some(s) => s.value
  }

  /** `some` agrees with `findIndex`. */
  lemma HasScoreIffFound(scores: seq<Score>, criterionId: string, alternativeId: string)
    ensures HasScore(scores, criterionId, alternativeId) <==> FindScoreIndex(scores, criterionId, alternativeId) >= 0
  {
    var r := FindScoreIndex(scores, criterionId, alternativeId);
    if r >= 0 {
      assert IsFor(scores[r], criterionId, alternativeId);
    }
  }

  /** The first record for a pair is the one at j when j matches and no
      earlier index does. */
  lemma FirstMatchAt(scores: seq<Score>, criterionId: string, alternativeId: string, j: nat)
    requires j < |scores| && IsFor(scores[j], criterionId, alternativeId)
    requires forall k :: 0 <= k < j ==> !IsFor(scores[k], criterionId, alternativeId)
    ensures FindScoreIndex(scores, criterionId, alternativeId) == j
  {
    var r := FindScoreIndex(scores, criterionId, alternativeId);
    assert r != -1;
  }
}
