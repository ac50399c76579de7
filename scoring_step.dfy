/** The scoring step (src/components/ScoringStep.tsx): the rating upsert
    keyed on (criterionId, alternativeId), the lookup the selects display,
    the 0..5 option domain, and the condition that enables Calculate. */
module ScoringStep {
  import opened Types
  import opened Ratings
  import opened Validation
  import CriteriaStep

  /** The values the rating select offers, in increasing order; 0 is shown
      as "-". */
  function ScoreOptions(): (r: seq<int>)
    ensures forall v :: v in r <==> 0 <= v <= 5
    ensures forall i, j :: 0 <= i < j < |r| ==> r[i] < r[j]
  {
    [0, 1, 2, 3, 4, 5]
  }

  /** `updateScore`: overwrite the value of the first record for the pair,
      or append a new record when there is none. */
  function UpdateScore(scores: seq<Score>, criterionId: string, alternativeId: string, value: int): (r: seq<Score>)
    ensures |r| == |scores| + (if HasScore(scores, criterionId, alternativeId) then 0 else 1)
    ensures var i := FindScoreIndex(scores, criterionId, alternativeId);
      i >= 0 ==>
        && r[i] == Score(criterionId, alternativeId, value)
        && forall k :: 0 <= k < |scores| && k != i ==> r[k] == scores[k]
    ensures FindScoreIndex(scores, criterionId, alternativeId) == -1 ==>
      r == scores + [Score(criterionId, alternativeId, value)]
  {
    HasScoreIffFound(scores, criterionId, alternativeId);
    var i := FindScoreIndex(scores, criterionId, alternativeId);
    if i >= 0 then
      seq(|scores|, k requires 0 <= k < |scores| => if k == i then scores[k].(value := value) else scores[k])
    else
      scores + [Score(criterionId, alternativeId, value)]
  }

  /** Two lists of equal length whose records match a pair at the same
      positions agree on the first match. */
  lemma {:induction false} SameMatches(a: seq<Score>, b: seq<Score>, criterionId: string, alternativeId: string)
    requires |a| == |b|
    requires forall k :: 0 <= k < |a| ==> IsFor(a[k], criterionId, alternativeId) == IsFor(b[k], criterionId, alternativeId)
    ensures FindScoreIndex(a, criterionId, alternativeId) == FindScoreIndex(b, criterionId, alternativeId)
    ensures HasScore(a, criterionId, alternativeId) == HasScore(b, criterionId, alternativeId)
  {
    var i := FindScoreIndex(a, criterionId, alternativeId);
    if i >= 0 {
      FirstMatchAt(b, criterionId, alternativeId, i);
    } else {
      assert FindScoreIndex(b, criterionId, alternativeId) == -1;
    }
    HasScoreIffFound(a, criterionId, alternativeId);
    HasScoreIffFound(b, criterionId, alternativeId);
  }

  /** After `updateScore(c, a, v)` the select for (c, a) shows v. */
  lemma UpdateThenGet(scores: seq<Score>, criterionId: string, alternativeId: string, value: int)
    ensures HasScore(UpdateScore(scores, criterionId, alternativeId, value), criterionId, alternativeId)
    ensures GetScore(UpdateScore(scores, criterionId, alternativeId, value), criterionId, alternativeId) == value
  {
    var r := UpdateScore(scores, criterionId, alternativeId, value);
    var i := FindScoreIndex(scores, criterionId, alternativeId);
    if i >= 0 {
      FirstMatchAt(r, criterionId, alternativeId, i);
    } else {
      FirstMatchAt(r, criterionId, alternativeId, |scores|);
    }
    HasScoreIffFound(r, criterionId, alternativeId);
  }

  /** Every other pair keeps its presence and its displayed value. */
  lemma UpdateLeavesOthers(scores: seq<Score>, criterionId: string, alternativeId: string, value: int, c: string, a: string)
    requires c != criterionId || a != alternativeId
    ensures HasScore(UpdateScore(scores, criterionId, alternativeId, value), c, a) == HasScore(scores, c, a)
    ensures GetScore(UpdateScore(scores, criterionId, alternativeId, value), c, a) == GetScore(scores, c, a)
  {
    var r := UpdateScore(scores, criterionId, alternativeId, value);
    var i := FindScoreIndex(scores, criterionId, alternativeId);
    if i >= 0 {
      SameMatches(r, scores, c, a);
    } else {
      var j := FindScoreIndex(scores, c, a);
      if j >= 0 {
        FirstMatchAt(r, c, a, j);
      } else {
        assert FindScoreIndex(r, c, a) == -1;
      }
      HasScoreIffFound(scores, c, a);
      HasScoreIffFound(r, c, a);
    }
  }

  /** Writing twice keeps the second value (and writing the same value
      twice is writing it once). */
  lemma UpdateTwice(scores: seq<Score>, criterionId: string, alternativeId: string, first: int, second: int)
    ensures UpdateScore(UpdateScore(scores, criterionId, alternativeId, first), criterionId, alternativeId, second)
      == UpdateScore(scores, criterionId, alternativeId, second)
  {
    var once := UpdateScore(scores, criterionId, alternativeId, first);
    var i := FindScoreIndex(scores, criterionId, alternativeId);
    if i >= 0 {
      FirstMatchAt(once, criterionId, alternativeId, i);
    } else {
      FirstMatchAt(once, criterionId, alternativeId, |scores|);
    }
  }

  /** At most one record per pair. */
  predicate UniquePairs(scores: seq<Score>)
  {
    forall i, j :: 0 <= i < j < |scores| ==>
      scores[i].criterionId != scores[j].criterionId || scores[i].alternativeId != scores[j].alternativeId
  }

  /** The upsert never creates a second record for a pair. */
  lemma UpdateKeepsPairsUnique(scores: seq<Score>, criterionId: string, alternativeId: string, value: int)
    requires UniquePairs(scores)
    ensures UniquePairs(UpdateScore(scores, criterionId, alternativeId, value))
  {
    var r := UpdateScore(scores, criterionId, alternativeId, value);
    if FindScoreIndex(scores, criterionId, alternativeId) >= 0 {
      forall k | 0 <= k < |r| ensures r[k].criterionId == scores[k].criterionId && r[k].alternativeId == scores[k].alternativeId {
      }
    }
  }

  /** Every value lies in the select's domain. */
  predicate ValuesInRange(scores: seq<Score>)
  {
    forall k :: 0 <= k < |scores| ==> scores[k].value in ScoreOptions()
  }

  /** Values written through the select keep every value in 0..5. */
  lemma UpdateKeepsValuesInRange(scores: seq<Score>, criterionId: string, alternativeId: string, value: int)
    requires ValuesInRange(scores) && value in ScoreOptions()
    ensures ValuesInRange(UpdateScore(scores, criterionId, alternativeId, value))
    ensures forall k :: 0 <= k < |UpdateScore(scores, criterionId, alternativeId, value)| ==>
      0 <= UpdateScore(scores, criterionId, alternativeId, value)[k].value <= 5
  {
  }

  /** The validator looks at presence and at the list's length only: two
      lists of equal length with the same pairs present get the same
      verdict, whatever the values. */
  lemma {:induction false} MissingForByPresence(criterion: Criterion, alternatives: seq<Alternative>, a: seq<Score>, b: seq<Score>)
    requires forall j :: 0 <= j < |alternatives| ==>
      HasScore(a, criterion.id, alternatives[j].id) == HasScore(b, criterion.id, alternatives[j].id)
    ensures MissingFor(criterion, alternatives, a) == MissingFor(criterion, alternatives, b)
  {
    if alternatives != [] {
      MissingForByPresence(criterion, alternatives[..|alternatives| - 1], a, b);
    }
  }

  lemma {:induction false} MissingPairsByPresence(criteria: seq<Criterion>, alternatives: seq<Alternative>, a: seq<Score>, b: seq<Score>)
    requires forall i, j :: 0 <= i < |criteria| && 0 <= j < |alternatives| ==>
      HasScore(a, criteria[i].id, alternatives[j].id) == HasScore(b, criteria[i].id, alternatives[j].id)
    ensures MissingPairs(criteria, alternatives, a) == MissingPairs(criteria, alternatives, b)
  {
    if criteria != [] {
      var n := |criteria|;
      MissingPairsByPresence(criteria[..n - 1], alternatives, a, b);
      MissingForByPresence(criteria[n - 1], alternatives, a, b);
    }
  }

  /** Re-rating a pair that already has a record never changes what the
      validator reports. */
  lemma RerateKeepsViolations(criteria: seq<Criterion>, alternatives: seq<Alternative>, scores: seq<Score>,
                              criterionId: string, alternativeId: string, value: int)
    requires HasScore(scores, criterionId, alternativeId)
    ensures Violations(criteria, alternatives, UpdateScore(scores, criterionId, alternativeId, value))
      == Violations(criteria, alternatives, scores)
  {
    var r := UpdateScore(scores, criterionId, alternativeId, value);
    forall i, j | 0 <= i < |criteria| && 0 <= j < |alternatives|
      ensures HasScore(r, criteria[i].id, alternatives[j].id) == HasScore(scores, criteria[i].id, alternatives[j].id)
    {
      if criteria[i].id == criterionId && alternatives[j].id == alternativeId {
        UpdateThenGet(scores, criterionId, alternativeId, value);
      } else {
        UpdateLeavesOthers(scores, criterionId, alternativeId, value, criteria[i].id, alternatives[j].id);
      }
    }
    MissingPairsByPresence(criteria, alternatives, r, scores);
  }

  /** `isComplete`, as written: both lists non-empty and exactly one record
      per pair on count. It enables the Calculate button. */
  predicate IsComplete(criteria: seq<Criterion>, alternatives: seq<Alternative>, scores: seq<Score>)
  {
    |criteria| > 0 && |alternatives| > 0 && |scores| == |criteria| * |alternatives|
  }

  /** The corrected condition: both lists non-empty and every current pair
      has a record. Records left behind by a removed criterion or
      alternative do not matter. */
  predicate ReadyToCalculate(criteria: seq<Criterion>, alternatives: seq<Alternative>, scores: seq<Score>)
  {
    |criteria| > 0 && |alternatives| > 0 && AllPairsScored(criteria, alternatives, scores)
  }

  // Counting: with distinct ids, covering every pair takes at least one
  // record per pair, and unique records of current pairs number at most
  // one per pair.

  /** xs without the occurrences of x. */
  function Drop(xs: seq<string>, x: string): (r: seq<string>)
    ensures forall y :: y in r <==> y in xs && y != x
    ensures |r| <= |xs| && (x in xs ==> |r| < |xs|)
  {
    if xs == [] then []
    else if xs[0] == x then Drop(xs[1..], x)
    else [xs[0]] + Drop(xs[1..], x)
  }

  /** Distinct keys that all occur in xs are at most |xs| many; one more
      element of xs outside the keys makes it strictly fewer. */
  lemma {:induction false} CoverCount(keys: seq<string>, xs: seq<string>, extra: Option<string>)
    requires Distinct(keys)
    requires forall i :: 0 <= i < |keys| ==> keys[i] in xs
    requires extra.Some? ==> extra.value in xs && extra.value !in keys
    ensures |keys| + (if extra.Some? then 1 else 0) <= |xs|
  {
    if keys != [] {
      var n := |keys|;
      var last := keys[n - 1];
      var rest := Drop(xs, last);
      var init := keys[..n - 1];
      assert keys[n - 1] in xs;
      forall i | 0 <= i < |init| ensures init[i] in rest {
        assert init[i] == keys[i] != last;
      }
      assert Distinct(init);
      if extra.Some? {
        assert extra.value != last;
        assert extra.value !in init;
      }
      CoverCount(init, rest, extra);
    } else if extra.Some? {
      assert xs != [];
    }
  }

  /** The records whose criterion is (keep) or is not (!keep) the given one. */
  function Split(scores: seq<Score>, criterionId: string, keep: bool): (r: seq<Score>)
    ensures forall s :: s in r <==> s in scores && (s.criterionId == criterionId) == keep
  {
    if scores == [] then []
    else
      (if (scores[0].criterionId == criterionId) == keep then [scores[0]] else [])
      + Split(scores[1..], criterionId, keep)
  }

  lemma {:induction false} SplitSizes(scores: seq<Score>, criterionId: string)
    ensures |Split(scores, criterionId, true)| + |Split(scores, criterionId, false)| == |scores|
  {
    if scores != [] {
      SplitSizes(scores[1..], criterionId);
    }
  }

  lemma {:induction false} SplitKeepsUnique(scores: seq<Score>, criterionId: string, keep: bool)
    requires UniquePairs(scores)
    ensures UniquePairs(Split(scores, criterionId, keep))
  {
    if scores != [] {
      var rest := Split(scores[1..], criterionId, keep);
      SplitKeepsUnique(scores[1..], criterionId, keep);
      forall k | 0 <= k < |rest|
        ensures scores[0].criterionId != rest[k].criterionId || scores[0].alternativeId != rest[k].alternativeId
      {
        assert rest[k] in scores[1..];
        var m :| 0 <= m < |scores[1..]| && scores[1..][m] == rest[k];
        assert scores[1 + m] == rest[k];
      }
    }
  }

  /** A pair is present in a part of the split exactly when it is present
      in the list and its criterion belongs to that part. */
  lemma SplitHasScore(scores: seq<Score>, criterionId: string, keep: bool, c: string, a: string)
    ensures HasScore(Split(scores, criterionId, keep), c, a) <==>
      HasScore(scores, c, a) && (c == criterionId) == keep
  {
    var part := Split(scores, criterionId, keep);
    if HasScore(part, c, a) {
      var m :| 0 <= m < |part| && IsFor(part[m], c, a);
      assert part[m] in scores;
    }
    if HasScore(scores, c, a) && (c == criterionId) == keep {
      var m :| 0 <= m < |scores| && IsFor(scores[m], c, a);
      assert scores[m] in part;
    }
  }

  function RecordAlternatives(scores: seq<Score>): seq<string>
  {
    seq(|scores|, k requires 0 <= k < |scores| => scores[k].alternativeId)
  }

  /** Every record is for a pair of the current lists. */
  predicate AllCurrent(criteria: seq<Criterion>, alternatives: seq<Alternative>, scores: seq<Score>)
  {
    forall k :: 0 <= k < |scores| ==>
      scores[k].criterionId in CriterionIds(criteria) && scores[k].alternativeId in AlternativeIds(alternatives)
  }

  /** The records of one criterion that cover every alternative are at
      least one per alternative. */
  lemma CriterionRecordsCover(criterionId: string, alternatives: seq<Alternative>, scores: seq<Score>)
    requires DistinctAlternativeIds(alternatives)
    requires forall j :: 0 <= j < |alternatives| ==> HasScore(scores, criterionId, alternatives[j].id)
    ensures |Split(scores, criterionId, true)| >= |alternatives|
  {
    var mine := Split(scores, criterionId, true);
    var ids := AlternativeIds(alternatives);
    forall j | 0 <= j < |ids| ensures ids[j] in RecordAlternatives(mine) {
      SplitHasScore(scores, criterionId, true, criterionId, alternatives[j].id);
      var p :| 0 <= p < |mine| && IsFor(mine[p], criterionId, alternatives[j].id);
      assert RecordAlternatives(mine)[p] == ids[j];
    }
    CoverCount(ids, RecordAlternatives(mine), None);
  }

  lemma FirstRecordCurrent(criteria: seq<Criterion>, alternatives: seq<Alternative>, scores: seq<Score>)
    requires AllCurrent(criteria, alternatives, scores)
    ensures scores == [] || scores[0].criterionId in CriterionIds(criteria)
  {
  }

  /** With distinct ids, a list that covers every pair has at least one
      record per pair. */
  lemma {:induction false} CoveringNeedsRecords(criteria: seq<Criterion>, alternatives: seq<Alternative>, scores: seq<Score>)
    requires DistinctCriterionIds(criteria) && DistinctAlternativeIds(alternatives)
    requires AllPairsScored(criteria, alternatives, scores)
    ensures |scores| >= |criteria| * |alternatives|
  {
    if criteria != [] {
      var n := |criteria|;
      var init, last := criteria[..n - 1], criteria[n - 1];
      var mine, others := Split(scores, last.id, true), Split(scores, last.id, false);
      assert |scores| == |mine| + |others| by {
        SplitSizes(scores, last.id);
      }
      assert |others| >= (n - 1) * |alternatives| by {
        forall i, j | 0 <= i < |init| && 0 <= j < |alternatives|
          ensures HasScore(others, init[i].id, alternatives[j].id)
        {
          assert init[i] == criteria[i];
          CriterionIdsDiffer(criteria, i, n - 1);
          SplitHasScore(scores, last.id, false, init[i].id, alternatives[j].id);
        }
        DistinctCriterionPrefix(criteria, n - 1);
        CoveringNeedsRecords(init, alternatives, others);
      }
      assert |mine| >= |alternatives| by {
        CriterionRecordsCover(last.id, alternatives, scores);
      }
      CoverRows(|mine|, |others|, n - 1, |alternatives|);
    }
  }

  lemma CoverRows(row: int, rest: int, rows: int, width: int)
    requires row >= width && rest >= rows * width
    ensures row + rest >= (rows + 1) * width
  {
  }

  /** Unique records of one criterion, all for current alternatives, are at
      most one per alternative, and strictly fewer when one alternative has
      none. */
  lemma CriterionRecordsBound(criterionId: string, alternatives: seq<Alternative>, scores: seq<Score>)
    requires UniquePairs(scores)
    requires forall k :: 0 <= k < |scores| ==> scores[k].alternativeId in AlternativeIds(alternatives)
    ensures |Split(scores, criterionId, true)|
      + (if forall j :: 0 <= j < |alternatives| ==> HasScore(scores, criterionId, alternatives[j].id) then 0 else 1)
      <= |alternatives|
  {
    var mine := Split(scores, criterionId, true);
    SplitKeepsUnique(scores, criterionId, true);
    var keys := RecordAlternatives(mine);
    var ids := AlternativeIds(alternatives);
    forall p, q | 0 <= p < q < |keys| ensures keys[p] != keys[q] {
      assert mine[p] in scores && mine[q] in scores;
    }
    forall p | 0 <= p < |keys| ensures keys[p] in ids {
      assert mine[p] in scores;
      var m :| 0 <= m < |scores| && scores[m] == mine[p];
    }
    if forall j :: 0 <= j < |alternatives| ==> HasScore(scores, criterionId, alternatives[j].id) {
      CoverCount(keys, ids, None);
    } else {
      var j :| 0 <= j < |alternatives| && !HasScore(scores, criterionId, alternatives[j].id);
      SplitHasScore(scores, criterionId, true, criterionId, alternatives[j].id);
      forall p | 0 <= p < |keys| ensures keys[p] != ids[j] {
        assert mine[p] in scores;
        assert !IsFor(mine[p], criterionId, alternatives[j].id);
      }
      CoverCount(keys, ids, Some(ids[j]));
    }
  }

  /** The records of the other criteria are current for the shorter list. */
  lemma OthersCurrent(criteria: seq<Criterion>, alternatives: seq<Alternative>, scores: seq<Score>)
    requires criteria != [] && AllCurrent(criteria, alternatives, scores)
    ensures var n := |criteria|;
      AllCurrent(criteria[..n - 1], alternatives, Split(scores, criteria[n - 1].id, false))
  {
    var n := |criteria|;
    var init := criteria[..n - 1];
    var others := Split(scores, criteria[n - 1].id, false);
    forall k | 0 <= k < |others|
      ensures others[k].criterionId in CriterionIds(init) && others[k].alternativeId in AlternativeIds(alternatives)
    {
      assert others[k] in scores;
      var m :| 0 <= m < |scores| && scores[m] == others[k];
      var i :| 0 <= i < n && CriterionIds(criteria)[i] == others[k].criterionId;
      assert i < n - 1 && CriterionIds(init)[i] == criteria[i].id;
    }
  }

  /** With unique pairs, records of current pairs number at most one per
      pair, and strictly fewer when some pair has none. */
  lemma {:induction false} CurrentRecordsBound(criteria: seq<Criterion>, alternatives: seq<Alternative>, scores: seq<Score>)
    requires DistinctCriterionIds(criteria)
    requires UniquePairs(scores) && AllCurrent(criteria, alternatives, scores)
    ensures |scores| + (if AllPairsScored(criteria, alternatives, scores) then 0 else 1) <= |criteria| * |alternatives|
    decreases |criteria|, 1
  {
    if criteria == [] {
      FirstRecordCurrent(criteria, alternatives, scores);
      assert CriterionIds(criteria) == [];
    } else {
      var n := |criteria|;
      var init, last := criteria[..n - 1], criteria[n - 1];
      var mine, others := Split(scores, last.id, true), Split(scores, last.id, false);
      SplitSizes(scores, last.id);
      OtherRecordsBound(criteria, alternatives, scores);
      CriterionRecordsBound(last.id, alternatives, scores);
      ScoredByParts(criteria, alternatives, scores);
      AddRow(|mine|, |others|, n - 1, n, |alternatives|,
             if forall j :: 0 <= j < |alternatives| ==> HasScore(scores, last.id, alternatives[j].id) then 0 else 1,
             if AllPairsScored(init, alternatives, others) then 0 else 1,
             if AllPairsScored(criteria, alternatives, scores) then 0 else 1);
    }
  }

  /** The records of all criteria but the last obey the bound for the
      shorter list. */
  lemma OtherRecordsBound(criteria: seq<Criterion>, alternatives: seq<Alternative>, scores: seq<Score>)
    requires criteria != [] && DistinctCriterionIds(criteria)
    requires UniquePairs(scores) && AllCurrent(criteria, alternatives, scores)
    ensures var n := |criteria|;
      var others := Split(scores, criteria[n - 1].id, false);
      |others| + (if AllPairsScored(criteria[..n - 1], alternatives, others) then 0 else 1)
        <= (n - 1) * |alternatives|
    decreases |criteria|, 0
  {
    var n := |criteria|;
    SplitKeepsUnique(scores, criteria[n - 1].id, false);
    OthersCurrent(criteria, alternatives, scores);
    DistinctCriterionPrefix(criteria, n - 1);
    CurrentRecordsBound(criteria[..n - 1], alternatives, Split(scores, criteria[n - 1].id, false));
  }

  /** Every pair is scored when the other criteria's pairs are scored by
      their records and the last criterion's pairs are all scored. */
  lemma ScoredByParts(criteria: seq<Criterion>, alternatives: seq<Alternative>, scores: seq<Score>)
    requires criteria != [] && DistinctCriterionIds(criteria)
    ensures var n := |criteria|;
      var last := criteria[n - 1];
      AllPairsScored(criteria[..n - 1], alternatives, Split(scores, last.id, false))
      && (forall j :: 0 <= j < |alternatives| ==> HasScore(scores, last.id, alternatives[j].id))
      ==> AllPairsScored(criteria, alternatives, scores)
  {
    var n := |criteria|;
    var init, last := criteria[..n - 1], criteria[n - 1];
    if AllPairsScored(init, alternatives, Split(scores, last.id, false)) {
      forall i, j | 0 <= i < n - 1 && 0 <= j < |alternatives|
        ensures HasScore(scores, criteria[i].id, alternatives[j].id)
      {
        assert init[i] == criteria[i];
        SplitHasScore(scores, last.id, false, init[i].id, alternatives[j].id);
      }
    }
  }

  /** Bounds on one more row of a table: a part within the row and the rest
      within the other rows stay within the table. */
  lemma AddRow(row: int, rest: int, rows: int, total: int, width: int, shortRow: int, shortRest: int, short: int)
    requires total == rows + 1
    requires row + shortRow <= width && rest + shortRest <= rows * width
    requires short <= shortRow + shortRest
    ensures row + rest + short <= total * width
  {
  }

  /** Within the caps and with distinct ids, the corrected condition holds
      exactly when the validator reports nothing, so Calculate is enabled
      exactly when the workflow will advance. */
  lemma ReadyIffValid(criteria: seq<Criterion>, alternatives: seq<Alternative>, scores: seq<Score>)
    requires |criteria| <= MaxCriteria && |alternatives| <= MaxAlternatives
    requires DistinctCriterionIds(criteria) && DistinctAlternativeIds(alternatives)
    ensures ReadyToCalculate(criteria, alternatives, scores) <==> Violations(criteria, alternatives, scores) == []
  {
    ValidIff(criteria, alternatives, scores);
    if ReadyToCalculate(criteria, alternatives, scores) {
      CoveringNeedsRecords(criteria, alternatives, scores);
    }
  }

  /** When no record is stale and none is duplicated, `isComplete` is the
      corrected condition: the count test is exact only then. */
  lemma CompleteIffReadyWithoutStale(criteria: seq<Criterion>, alternatives: seq<Alternative>, scores: seq<Score>)
    requires DistinctCriterionIds(criteria) && DistinctAlternativeIds(alternatives)
    requires UniquePairs(scores) && AllCurrent(criteria, alternatives, scores)
    ensures IsComplete(criteria, alternatives, scores) <==> ReadyToCalculate(criteria, alternatives, scores)
  {
    CurrentRecordsBound(criteria, alternatives, scores);
    if AllPairsScored(criteria, alternatives, scores) {
      CoveringNeedsRecords(criteria, alternatives, scores);
    }
  }

  /** Once every current pair is rated, rating a current pair again never
      changes `isComplete`, so a list with a surplus record stays blocked. */
  lemma RatingNeverUnblocks(criteria: seq<Criterion>, alternatives: seq<Alternative>, scores: seq<Score>,
                            i: nat, j: nat, value: int)
    requires i < |criteria| && j < |alternatives|
    requires AllPairsScored(criteria, alternatives, scores)
    ensures IsComplete(criteria, alternatives, UpdateScore(scores, criteria[i].id, alternatives[j].id, value))
      == IsComplete(criteria, alternatives, scores)
  {
  }

  /** The stale-record scenario: criteria c1 and c2 and one alternative,
      both pairs rated, then c2 removed. Removal leaves the ratings alone. */
  function StaleCriteria(): seq<Criterion>
  {
    CriteriaStep.RemoveCriterion([Criterion("c1", "Cost", 50), Criterion("c2", "Quality", 50)], "c2")
  }

  function StaleAlternatives(): seq<Alternative>
  {
    [Alternative("a1", "A")]
  }

  function StaleScores(): seq<Score>
  {
    UpdateScore(UpdateScore([], "c1", "a1", 3), "c2", "a1", 4)
  }

  /** After the removal the only current pair is rated and the validator
      reports nothing, yet `isComplete` is false because c2's record
      remains. */
  lemma StaleRecordBlocksCalculate()
    ensures StaleCriteria() == [Criterion("c1", "Cost", 50)]
    ensures StaleScores() == [Score("c1", "a1", 3), Score("c2", "a1", 4)]
    ensures !IsComplete(StaleCriteria(), StaleAlternatives(), StaleScores())
    ensures ReadyToCalculate(StaleCriteria(), StaleAlternatives(), StaleScores())
    ensures Violations(StaleCriteria(), StaleAlternatives(), StaleScores()) == []
  {
    var both := [Criterion("c1", "Cost", 50), Criterion("c2", "Quality", 50)];
    assert both[1..] == [both[1]];
    assert [both[1]][1..] == [];
    var criteria := StaleCriteria();
    assert criteria == [both[0]];
    var alternatives := StaleAlternatives();
    var first := UpdateScore([], "c1", "a1", 3);
    assert first == [Score("c1", "a1", 3)];
    assert !IsFor(first[0], "c2", "a1");
    var scores := StaleScores();
    assert |scores| == 2;
    assert IsFor(scores[0], "c1", "a1");
    ReadyIffValid(criteria, alternatives, scores);
  }
}
