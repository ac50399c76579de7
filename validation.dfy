/** The validator, `validateMatrix` (src/utils/calculations.ts). It never
    fails: it returns the ordered list of every violation found. Violations
    are a datatype rendered to the application's exact message texts. */
module Validation {
  import opened Types
  import opened Ratings

  datatype Violation =
    | NoCriteria
    | NoAlternatives
    | TooManyCriteria
    | TooManyAlternatives
    | IncompleteScores
    | MissingScore(criterionName: string, alternativeName: string)

  /** The text pushed for each violation. */
  function Message(v: Violation): string
  {
    match v
    case NoCriteria => "At least one criterion is required"
    case NoAlternatives => "At least one alternative is required"
    case TooManyCriteria => "Maximum 10 criteria allowed"
    case TooManyAlternatives => "Maximum 3 alternatives allowed"
    case IncompleteScores => "All criteria must be scored for all alternatives"
    case MissingScore(c, a) => "Missing score for \"" + c + "\" and \"" + a + "\""
  }

  function Messages(vs: seq<Violation>): (r: seq<string>)
    ensures |r| == |vs|
  {
    seq(|vs|, k requires 0 <= k < |vs| => Message(vs[k]))
  }

  lemma MessagesAppend(vs: seq<Violation>, v: Violation)
    ensures Messages(vs + [v]) == Messages(vs) + [Message(v)]
  {
  }

  /** The violation v when c holds, nothing otherwise. */
  function Flag(c: bool, v: Violation): seq<Violation>
  {
    if c then [v] else []
  }

  /** The four size checks and the count check, in the order the source
      runs them. The count check compares with `<`: surplus records never
      trigger it. */
  function CountChecks(criteria: seq<Criterion>, alternatives: seq<Alternative>, scores: seq<Score>): seq<Violation>
  {
    Flag(|criteria| == 0, NoCriteria)
    + Flag(|alternatives| == 0, NoAlternatives)
    + Flag(|criteria| > MaxCriteria, TooManyCriteria)
    + Flag(|alternatives| > MaxAlternatives, TooManyAlternatives)
    + Flag(|scores| < |criteria| * |alternatives|, IncompleteScores)
  }

  /** One MissingScore per alternative (in alternative order) that has no
      record with this criterion. A record of value 0 counts as present. */
  function MissingFor(criterion: Criterion, alternatives: seq<Alternative>, scores: seq<Score>): seq<Violation>
  {
    if alternatives == [] then []
    else
      var a := alternatives[|alternatives| - 1];
      MissingFor(criterion, alternatives[..|alternatives| - 1], scores)
      + (if HasScore(scores, criterion.id, a.id) then [] else [MissingScore(criterion.name, a.name)])
  }

  /** The MissingScore violations, criteria-major. */
  function MissingPairs(criteria: seq<Criterion>, alternatives: seq<Alternative>, scores: seq<Score>): seq<Violation>
  {
    if criteria == [] then []
    else
      MissingPairs(criteria[..|criteria| - 1], alternatives, scores)
      + MissingFor(criteria[|criteria| - 1], alternatives, scores)
  }

  function Violations(criteria: seq<Criterion>, alternatives: seq<Alternative>, scores: seq<Score>): seq<Violation>
  {
    CountChecks(criteria, alternatives, scores) + MissingPairs(criteria, alternatives, scores)
  }

  /** Every (criterion, alternative) pair has a record. */
  predicate AllPairsScored(criteria: seq<Criterion>, alternatives: seq<Alternative>, scores: seq<Score>)
  {
    forall i, j :: 0 <= i < |criteria| && 0 <= j < |alternatives| ==>
      HasScore(scores, criteria[i].id, alternatives[j].id)
  }

  /** Both collections are non-empty and within their caps. */
  predicate WithinLimits(criteria: seq<Criterion>, alternatives: seq<Alternative>)
  {
    1 <= |criteria| <= MaxCriteria && 1 <= |alternatives| <= MaxAlternatives
  }

  lemma MessagesConcat(a: seq<Violation>, b: seq<Violation>)
    ensures Messages(a + b) == Messages(a) + Messages(b)
  {
  }

  /** `validateMatrix`: the size checks and the count check
      (ReportCounts), then the nested `forEach` over criteria and
      alternatives (ReportMissingPairs), all pushing onto one list. */
  method ValidateMatrix(criteria: seq<Criterion>, alternatives: seq<Alternative>, scores: seq<Score>)
    returns (errors: seq<string>)
    ensures errors == Messages(Violations(criteria, alternatives, scores))
  {
    errors := ReportCounts(criteria, alternatives, scores);
    var missing := ReportMissingPairs(criteria, alternatives, scores);
    MessagesConcat(CountChecks(criteria, alternatives, scores), MissingPairs(criteria, alternatives, scores));
    errors := errors + missing;
  }

  /** The four size checks and the count check, each pushing its message;
      `vs` is the list of violations pushed so far. */
  method ReportCounts(criteria: seq<Criterion>, alternatives: seq<Alternative>, scores: seq<Score>)
    returns (errors: seq<string>)
    ensures errors == Messages(CountChecks(criteria, alternatives, scores))
  {
    errors := [];
    ghost var vs: seq<Violation> := [];
    if |criteria| == 0 {
      MessagesAppend(vs, NoCriteria);
      vs, errors := vs + [NoCriteria], errors + [Message(NoCriteria)];
    }
    ghost var sizes := Flag(|criteria| == 0, NoCriteria);
    assert vs == sizes;
    if |alternatives| == 0 {
      MessagesAppend(vs, NoAlternatives);
      vs, errors := vs + [NoAlternatives], errors + [Message(NoAlternatives)];
    }
    sizes := sizes + Flag(|alternatives| == 0, NoAlternatives);
    assert vs == sizes;
    if |criteria| > MaxCriteria {
      MessagesAppend(vs, TooManyCriteria);
      vs, errors := vs + [TooManyCriteria], errors + [Message(TooManyCriteria)];
    }
    sizes := sizes + Flag(|criteria| > MaxCriteria, TooManyCriteria);
    assert vs == sizes;
    if |alternatives| > MaxAlternatives {
      MessagesAppend(vs, TooManyAlternatives);
      vs, errors := vs + [TooManyAlternatives], errors + [Message(TooManyAlternatives)];
    }
    sizes := sizes + Flag(|alternatives| > MaxAlternatives, TooManyAlternatives);
    assert vs == sizes;
    var requiredScores := |criteria| * |alternatives|;
    var actualScores := |scores|;
    if actualScores < requiredScores {
      MessagesAppend(vs, IncompleteScores);
      vs, errors := vs + [IncompleteScores], errors + [Message(IncompleteScores)];
    }
    assert vs == sizes + Flag(|scores| < |criteria| * |alternatives|, IncompleteScores);
  }

  /** The outer `forEach` over the criteria. */
  method ReportMissingPairs(criteria: seq<Criterion>, alternatives: seq<Alternative>, scores: seq<Score>)
    returns (errors: seq<string>)
    ensures errors == Messages(MissingPairs(criteria, alternatives, scores))
  {
    errors := [];
    for i := 0 to |criteria|
      invariant errors == Messages(MissingPairs(criteria[..i], alternatives, scores))
    {
      var found := ReportMissingFor(criteria[i], alternatives, scores);
      MissingPairsStep(criteria, alternatives, scores, i);
      MessagesConcat(MissingPairs(criteria[..i], alternatives, scores), MissingFor(criteria[i], alternatives, scores));
      errors := errors + found;
    }
    assert criteria[..|criteria|] == criteria;
  }

  /** The inner `forEach`: one message per alternative without a record
      for this criterion. */
  method ReportMissingFor(criterion: Criterion, alternatives: seq<Alternative>, scores: seq<Score>)
    returns (errors: seq<string>)
    ensures errors == Messages(MissingFor(criterion, alternatives, scores))
  {
    errors := [];
    for j := 0 to |alternatives|
      invariant errors == Messages(MissingFor(criterion, alternatives[..j], scores))
    {
      var alternative := alternatives[j];
      var hasScore := HasScore(scores, criterion.id, alternative.id);
      MissingForStep(criterion, alternatives, scores, j);
      if !hasScore {
        var v := MissingScore(criterion.name, alternative.name);
        MessagesAppend(MissingFor(criterion, alternatives[..j], scores), v);
        errors := errors + [Message(v)];
      }
    }
    assert alternatives[..|alternatives|] == alternatives;
  }

  lemma MissingForStep(criterion: Criterion, alternatives: seq<Alternative>, scores: seq<Score>, j: nat)
    requires j < |alternatives|
    ensures MissingFor(criterion, alternatives[..j + 1], scores)
      == MissingFor(criterion, alternatives[..j], scores)
         + (if HasScore(scores, criterion.id, alternatives[j].id) then []
            else [MissingScore(criterion.name, alternatives[j].name)])
  {
    assert alternatives[..j + 1][..j] == alternatives[..j];
  }

  lemma MissingPairsStep(criteria: seq<Criterion>, alternatives: seq<Alternative>, scores: seq<Score>, i: nat)
    requires i < |criteria|
    ensures MissingPairs(criteria[..i + 1], alternatives, scores)
      == MissingPairs(criteria[..i], alternatives, scores) + MissingFor(criteria[i], alternatives, scores)
  {
    assert criteria[..i + 1][..i] == criteria[..i];
  }

  lemma {:induction false} MissingForEmptyIff(criterion: Criterion, alternatives: seq<Alternative>, scores: seq<Score>)
    ensures MissingFor(criterion, alternatives, scores) == [] <==>
      forall j :: 0 <= j < |alternatives| ==> HasScore(scores, criterion.id, alternatives[j].id)
  {
    if alternatives != [] {
      var init := alternatives[..|alternatives| - 1];
      MissingForEmptyIff(criterion, init, scores);
    }
  }

  lemma {:induction false} MissingPairsEmptyIff(criteria: seq<Criterion>, alternatives: seq<Alternative>, scores: seq<Score>)
    ensures MissingPairs(criteria, alternatives, scores) == [] <==> AllPairsScored(criteria, alternatives, scores)
  {
    if criteria != [] {
      var init, last := criteria[..|criteria| - 1], criteria[|criteria| - 1];
      var n := |criteria|;
      MissingPairsEmptyIff(init, alternatives, scores);
      MissingForEmptyIff(last, alternatives, scores);
      if AllPairsScored(criteria, alternatives, scores) {
        forall i, j | 0 <= i < n - 1 && 0 <= j < |alternatives|
          ensures HasScore(scores, init[i].id, alternatives[j].id)
        {
          assert init[i] == criteria[i];
        }
      }
      if && AllPairsScored(init, alternatives, scores)
         && forall j :: 0 <= j < |alternatives| ==> HasScore(scores, last.id, alternatives[j].id)
      {
        forall i, j | 0 <= i < n && 0 <= j < |alternatives|
          ensures HasScore(scores, criteria[i].id, alternatives[j].id)
        {
          if i < n - 1 {
            assert criteria[i] == init[i];
          }
        }
      }
    }
  }

  /** The validator accepts exactly the matrices with 1..10 criteria, 1..3
      alternatives, at least one record per pair on count, and a record for
      every pair. */
  lemma ValidIff(criteria: seq<Criterion>, alternatives: seq<Alternative>, scores: seq<Score>)
    ensures Violations(criteria, alternatives, scores) == [] <==>
      && WithinLimits(criteria, alternatives)
      && |scores| >= |criteria| * |alternatives|
      && AllPairsScored(criteria, alternatives, scores)
  {
    MissingPairsEmptyIff(criteria, alternatives, scores);
  }

  lemma {:induction false} MissingForSound(criterion: Criterion, alternatives: seq<Alternative>, scores: seq<Score>, v: Violation)
    requires v in MissingFor(criterion, alternatives, scores)
    ensures exists j ::
      && 0 <= j < |alternatives|
      && !HasScore(scores, criterion.id, alternatives[j].id)
      && v == MissingScore(criterion.name, alternatives[j].name)
  {
    var init := alternatives[..|alternatives| - 1];
    if v in MissingFor(criterion, init, scores) {
      MissingForSound(criterion, init, scores, v);
      var j :| 0 <= j < |init| && !HasScore(scores, criterion.id, init[j].id)
        && v == MissingScore(criterion.name, init[j].name);
      assert alternatives[j] == init[j];
    }
  }

  lemma {:induction false} MissingForComplete(criterion: Criterion, alternatives: seq<Alternative>, scores: seq<Score>, j: nat)
    requires j < |alternatives| && !HasScore(scores, criterion.id, alternatives[j].id)
    ensures MissingScore(criterion.name, alternatives[j].name) in MissingFor(criterion, alternatives, scores)
  {
    var init := alternatives[..|alternatives| - 1];
    if j < |init| {
      assert init[j] == alternatives[j];
      MissingForComplete(criterion, init, scores, j);
    }
  }

  /** Every MissingScore message names a criterion and an alternative whose
      pair has no record; nothing else is in the missing-pair part. */
  lemma {:induction false} MissingPairsSound(criteria: seq<Criterion>, alternatives: seq<Alternative>, scores: seq<Score>, v: Violation)
    requires v in MissingPairs(criteria, alternatives, scores)
    ensures exists i, j ::
      && 0 <= i < |criteria| && 0 <= j < |alternatives|
      && !HasScore(scores, criteria[i].id, alternatives[j].id)
      && v == MissingScore(criteria[i].name, alternatives[j].name)
  {
    var init, last := criteria[..|criteria| - 1], criteria[|criteria| - 1];
    if v in MissingPairs(init, alternatives, scores) {
      MissingPairsSound(init, alternatives, scores, v);
      var i, j :| 0 <= i < |init| && 0 <= j < |alternatives|
        && !HasScore(scores, init[i].id, alternatives[j].id)
        && v == MissingScore(init[i].name, alternatives[j].name);
      assert criteria[i] == init[i];
    } else {
      MissingForSound(last, alternatives, scores, v);
      var j :| 0 <= j < |alternatives| && !HasScore(scores, last.id, alternatives[j].id)
        && v == MissingScore(last.name, alternatives[j].name);
      assert criteria[|criteria| - 1] == last;
    }
  }

  /** Every pair without a record is reported, a record of value 0 being a
      record. */
  lemma {:induction false} MissingPairsComplete(criteria: seq<Criterion>, alternatives: seq<Alternative>, scores: seq<Score>, i: nat, j: nat)
    requires i < |criteria| && j < |alternatives|
    requires !HasScore(scores, criteria[i].id, alternatives[j].id)
    ensures MissingScore(criteria[i].name, alternatives[j].name) in MissingPairs(criteria, alternatives, scores)
  {
    var init := criteria[..|criteria| - 1];
    if i < |init| {
      assert init[i] == criteria[i];
      MissingPairsComplete(init, alternatives, scores, i, j);
    } else {
      MissingForComplete(criteria[i], alternatives, scores, j);
    }
  }

  lemma {:induction false} NoCountViolationInMissingPairs(criteria: seq<Criterion>, alternatives: seq<Alternative>, scores: seq<Score>)
    ensures IncompleteScores !in MissingPairs(criteria, alternatives, scores)
  {
    if IncompleteScores in MissingPairs(criteria, alternatives, scores) {
      MissingPairsSound(criteria, alternatives, scores, IncompleteScores);
    }
  }

  /** The count message appears exactly when there are fewer records than
      pairs; surplus records never trigger it. */
  lemma CountMessageIff(criteria: seq<Criterion>, alternatives: seq<Alternative>, scores: seq<Score>)
    ensures IncompleteScores in Violations(criteria, alternatives, scores) <==>
      |scores| < |criteria| * |alternatives|
  {
    NoCountViolationInMissingPairs(criteria, alternatives, scores);
  }

  /** The records of all but one alternative. */
  function ScoresWithout(scores: seq<Score>, alternativeId: string): (r: seq<Score>)
    ensures forall s :: s in r <==> s in scores && s.alternativeId != alternativeId
  {
    if scores == [] then []
    else
      (if scores[0].alternativeId == alternativeId then [] else [scores[0]])
      + ScoresWithout(scores[1..], alternativeId)
  }

  lemma {:induction false} ScoresWithoutShrinks(scores: seq<Score>, alternativeId: string, k: nat)
    requires k < |scores| && scores[k].alternativeId == alternativeId
    ensures |ScoresWithout(scores, alternativeId)| < |scores|
  {
    if k > 0 {
      ScoresWithoutShrinks(scores[1..], alternativeId, k - 1);
    } else {
      ScoresWithoutAtMost(scores[1..], alternativeId);
    }
  }

  lemma {:induction false} ScoresWithoutAtMost(scores: seq<Score>, alternativeId: string)
    ensures |ScoresWithout(scores, alternativeId)| <= |scores|
  {
    if scores != [] {
      ScoresWithoutAtMost(scores[1..], alternativeId);
    }
  }

  /** After dropping an alternative's records no pair of it has one. */
  lemma NoScoreWithout(scores: seq<Score>, criterionId: string, alternativeId: string)
    ensures !HasScore(ScoresWithout(scores, alternativeId), criterionId, alternativeId)
  {
    var rest := ScoresWithout(scores, alternativeId);
    forall m | 0 <= m < |rest| ensures !IsFor(rest[m], criterionId, alternativeId) {
      assert rest[m] in rest;
    }
  }

  /** Starting from a matrix whose every pair is rated with no surplus
      record, dropping the records of one alternative makes the validator
      report the count message and one MissingScore per criterion for that
      alternative. */
  lemma DroppingAlternativeScores(criteria: seq<Criterion>, alternatives: seq<Alternative>, scores: seq<Score>, k: nat)
    requires k < |alternatives| && |criteria| > 0
    requires AllPairsScored(criteria, alternatives, scores)
    requires |scores| == |criteria| * |alternatives|
    ensures var vs := Violations(criteria, alternatives, ScoresWithout(scores, alternatives[k].id));
      && IncompleteScores in vs
      && forall i :: 0 <= i < |criteria| ==> MissingScore(criteria[i].name, alternatives[k].name) in vs
  {
    var a := alternatives[k];
    var rest := ScoresWithout(scores, a.id);
    assert |rest| < |scores| by {
      assert HasScore(scores, criteria[0].id, a.id);
      var m :| 0 <= m < |scores| && IsFor(scores[m], criteria[0].id, a.id);
      ScoresWithoutShrinks(scores, a.id, m);
    }
    CountMessageIff(criteria, alternatives, rest);
    forall i | 0 <= i < |criteria|
      ensures MissingScore(criteria[i].name, a.name) in Violations(criteria, alternatives, rest)
    {
      NoScoreWithout(scores, criteria[i].id, a.id);
      MissingPairsComplete(criteria, alternatives, rest, i, k);
    }
  }

  /** A criterion whose only unrated alternative is the one at k gets
      exactly that alternative's message. */
  lemma {:induction false} MissingForOnly(criterion: Criterion, alternatives: seq<Alternative>, scores: seq<Score>, k: nat)
    requires k < |alternatives|
    requires forall j :: 0 <= j < |alternatives| ==>
      (HasScore(scores, criterion.id, alternatives[j].id) <==> j != k)
    ensures MissingFor(criterion, alternatives, scores) == [MissingScore(criterion.name, alternatives[k].name)]
  {
    var n := |alternatives|;
    var init := alternatives[..n - 1];
    if k == n - 1 {
      MissingForEmptyIff(criterion, init, scores);
      assert MissingFor(criterion, init, scores) == [] by {
        forall j | 0 <= j < |init| ensures HasScore(scores, criterion.id, init[j].id) {
          assert init[j] == alternatives[j];
        }
      }
    } else {
      forall j | 0 <= j < |init| ensures HasScore(scores, criterion.id, init[j].id) <==> j != k {
        assert init[j] == alternatives[j];
      }
      MissingForOnly(criterion, init, scores, k);
    }
  }

  /** The message of every criterion for one alternative, in criteria
      order. */
  function MissingColumn(criteria: seq<Criterion>, alternative: Alternative): (r: seq<Violation>)
    ensures |r| == |criteria|
    ensures forall i :: 0 <= i < |criteria| ==> r[i] == MissingScore(criteria[i].name, alternative.name)
  {
    seq(|criteria|, i requires 0 <= i < |criteria| => MissingScore(criteria[i].name, alternative.name))
  }

  /** When exactly the pairs of the alternative at k are unrated, the
      missing-score messages are that alternative's column, once each. */
  lemma {:induction false} MissingPairsOnly(criteria: seq<Criterion>, alternatives: seq<Alternative>, scores: seq<Score>, k: nat)
    requires k < |alternatives|
    requires forall i, j :: 0 <= i < |criteria| && 0 <= j < |alternatives| ==>
      (HasScore(scores, criteria[i].id, alternatives[j].id) <==> j != k)
    ensures MissingPairs(criteria, alternatives, scores) == MissingColumn(criteria, alternatives[k])
  {
    if criteria != [] {
      var n := |criteria|;
      var init, last := criteria[..n - 1], criteria[n - 1];
      forall i, j | 0 <= i < |init| && 0 <= j < |alternatives|
        ensures HasScore(scores, init[i].id, alternatives[j].id) <==> j != k
      {
        assert init[i] == criteria[i];
      }
      MissingPairsOnly(init, alternatives, scores, k);
      MissingForOnly(last, alternatives, scores, k);
      ColumnSnoc(criteria, alternatives[k]);
    }
  }

  lemma ColumnSnoc(criteria: seq<Criterion>, alternative: Alternative)
    requires criteria != []
    ensures var n := |criteria|;
      MissingColumn(criteria, alternative)
        == MissingColumn(criteria[..n - 1], alternative) + [MissingScore(criteria[n - 1].name, alternative.name)]
  {
    var n := |criteria|;
    var init := criteria[..n - 1];
    forall i | 0 <= i < n - 1 ensures MissingColumn(criteria, alternative)[i] == MissingColumn(init, alternative)[i] {
      assert init[i] == criteria[i];
    }
  }

  /** Dropping the ratings of one alternative keeps every other pair rated,
      when alternative ids are distinct. */
  lemma OnlyDroppedUnrated(criteria: seq<Criterion>, alternatives: seq<Alternative>, scores: seq<Score>, k: nat)
    requires k < |alternatives| && DistinctAlternativeIds(alternatives)
    requires AllPairsScored(criteria, alternatives, scores)
    ensures forall i, j :: 0 <= i < |criteria| && 0 <= j < |alternatives| ==>
      (HasScore(ScoresWithout(scores, alternatives[k].id), criteria[i].id, alternatives[j].id) <==> j != k)
  {
    var a := alternatives[k];
    var rest := ScoresWithout(scores, a.id);
    DistinctAlternativeIdsIff(alternatives);
    forall i, j | 0 <= i < |criteria| && 0 <= j < |alternatives|
      ensures HasScore(rest, criteria[i].id, alternatives[j].id) <==> j != k
    {
      if j == k {
        NoScoreWithout(scores, criteria[i].id, a.id);
      } else {
        assert alternatives[j].id != a.id;
        assert HasScore(scores, criteria[i].id, alternatives[j].id);
        var m :| 0 <= m < |scores| && IsFor(scores[m], criteria[i].id, alternatives[j].id);
        assert scores[m] in rest;
        var m' :| 0 <= m' < |rest| && rest[m'] == scores[m];
        assert IsFor(rest[m'], criteria[i].id, alternatives[j].id);
      }
    }
  }

  /** Within the caps and with distinct alternative ids, starting from a
      matrix whose every pair is rated with no surplus record, dropping the
      records of one alternative makes the validator report exactly the
      count message followed by that alternative's message for each
      criterion, in criteria order, and nothing else. */
  lemma DroppingAlternativeScoresExactly(criteria: seq<Criterion>, alternatives: seq<Alternative>, scores: seq<Score>, k: nat)
    requires k < |alternatives| && WithinLimits(criteria, alternatives) && DistinctAlternativeIds(alternatives)
    requires AllPairsScored(criteria, alternatives, scores)
    requires |scores| == |criteria| * |alternatives|
    ensures Violations(criteria, alternatives, ScoresWithout(scores, alternatives[k].id))
      == [IncompleteScores] + MissingColumn(criteria, alternatives[k])
  {
    var rest := ScoresWithout(scores, alternatives[k].id);
    DroppingAlternativeScores(criteria, alternatives, scores, k);
    CountMessageIff(criteria, alternatives, rest);
    NoCountViolationInMissingPairs(criteria, alternatives, rest);
    assert |rest| < |criteria| * |alternatives|;
    assert CountChecks(criteria, alternatives, rest) == [IncompleteScores];
    OnlyDroppedUnrated(criteria, alternatives, scores, k);
    MissingPairsOnly(criteria, alternatives, rest, k);
  }
}
