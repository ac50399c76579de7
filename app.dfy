/** The workflow of src/App.tsx: four steps in a fixed order over the five
    pieces of state the component keeps. The Next buttons of the step
    components are disabled until their step is ready; those conditions are
    folded into Next as guards. The step components reach the collections
    only through the setter of their own step, which is what keeps the
    results consistent with the matrix they were computed from. */
module App {
  import opened Types
  import opened Validation
  import opened Calculations
  import opened Ranking
  import opened ScoringStep
  import opened Ratings
  import CriteriaStep
  import AlternativesStep

  /** `getStepNumber`: the position of a step in the workflow. */
  function StepNumber(s: Step): (n: int)
    ensures 1 <= n <= 4
    ensures n == 1 <==> s == Criteria
    ensures n == 4 <==> s == Results
  {
    match s
    case Criteria => 1
    case Alternatives => 2
    case Scoring => 3
    case Results => 4
  }

  /** The step `handleNext` moves to; the last step has none. */
  function Successor(s: Step): (t: Step)
    ensures StepNumber(t) == if s == Results then 4 else StepNumber(s) + 1
  {
    match s
    case Criteria => Alternatives
    case Alternatives => Scoring
    case Scoring => Results
    case Results => Results
  }

  /** The step `handleBack` moves to; the first step has none. */
  function Predecessor(s: Step): (t: Step)
    ensures StepNumber(t) == if s == Criteria then 1 else StepNumber(s) - 1
  {
    match s
    case Criteria => Criteria
    case Alternatives => Criteria
    case Scoring => Alternatives
    case Results => Scoring
  }

  /** Step numbers tell the steps apart, so the progress bar shows the step. */
  lemma StepNumberInjective(a: Step, b: Step)
    ensures StepNumber(a) == StepNumber(b) ==> a == b
  {
  }

  /** Back undoes Next on every step that has a successor, and Next undoes
      Back on every step that has a predecessor. */
  lemma BackUndoesNext(s: Step)
    ensures s != Results ==> Predecessor(Successor(s)) == s
    ensures s != Criteria ==> Successor(Predecessor(s)) == s
  {
  }

  /** What a press of Next did: moved on, did nothing (the button is
      disabled, or there is no later step), or was refused by the validator
      with its messages, which the application shows in an alert. */
  datatype NextOutcome = Advanced | Disabled | Rejected(errors: seq<string>)

  /** What Next does on the scoring step when the Calculate button is
      enabled exactly when `enabled` holds: nothing while it is disabled;
      otherwise the validator runs, and the workflow either moves on or shows
      the validator's messages. */
  function ScoringOutcome(enabled: bool, criteria: seq<Criterion>, alternatives: seq<Alternative>, scores: seq<Score>): (o: NextOutcome)
    ensures o.Disabled? <==> !enabled
    ensures o.Advanced? <==> enabled && Violations(criteria, alternatives, scores) == []
    ensures o.Rejected? ==> o.errors == Messages(Violations(criteria, alternatives, scores)) && o.errors != []
  {
    if !enabled then Disabled
    else if Violations(criteria, alternatives, scores) == [] then Advanced
    else Rejected(Messages(Violations(criteria, alternatives, scores)))
  }

  /** Without stale or duplicate records the button as written and the
      corrected one lead to the same outcome. */
  lemma GatesAgreeWithoutStale(criteria: seq<Criterion>, alternatives: seq<Alternative>, scores: seq<Score>)
    requires DistinctCriterionIds(criteria) && DistinctAlternativeIds(alternatives)
    requires UniquePairs(scores) && AllCurrent(criteria, alternatives, scores)
    ensures ScoringOutcome(IsComplete(criteria, alternatives, scores), criteria, alternatives, scores)
      == ScoringOutcome(ReadyToCalculate(criteria, alternatives, scores), criteria, alternatives, scores)
  {
    CompleteIffReadyWithoutStale(criteria, alternatives, scores);
  }

  /** The stale-record state: as written the workflow stays on the scoring
      step, corrected it moves on to the results. */
  lemma StaleStateStaysPut()
    ensures ScoringOutcome(IsComplete(StaleCriteria(), StaleAlternatives(), StaleScores()),
                           StaleCriteria(), StaleAlternatives(), StaleScores()) == Disabled
    ensures ScoringOutcome(ReadyToCalculate(StaleCriteria(), StaleAlternatives(), StaleScores()),
                           StaleCriteria(), StaleAlternatives(), StaleScores()) == Advanced
  {
    StaleRecordBlocksCalculate();
  }

  /** With two records, c1 rated and c3 not, the validator reports exactly
      c3's pair. */
  lemma SurplusViolations(c1: Criterion, c3: Criterion, a: Alternative, scores: seq<Score>)
    requires |scores| == 2
    requires HasScore(scores, c1.id, a.id) && !HasScore(scores, c3.id, a.id)
    ensures Violations([c1, c3], [a], scores) == [MissingScore(c3.name, a.name)]
  {
    assert [c1, c3][..1] == [c1];
    assert [c1][..0] == [];
    assert [a][..0] == [];
    assert MissingFor(c1, [a], scores) == [];
    assert MissingFor(c3, [a], scores) == [MissingScore(c3.name, a.name)];
    assert MissingPairs([c1], [a], scores) == [];
    assert CountChecks([c1, c3], [a], scores) == [];
  }

  /** The outcomes of both buttons on that matrix. */
  lemma SurplusOutcomes(c1: Criterion, c3: Criterion, a: Alternative, scores: seq<Score>)
    requires |scores| == 2
    requires HasScore(scores, c1.id, a.id) && !HasScore(scores, c3.id, a.id)
    ensures IsComplete([c1, c3], [a], scores)
    ensures ScoringOutcome(IsComplete([c1, c3], [a], scores), [c1, c3], [a], scores)
      == Rejected([Message(MissingScore(c3.name, a.name))])
    ensures ScoringOutcome(ReadyToCalculate([c1, c3], [a], scores), [c1, c3], [a], scores) == Disabled
  {
    SurplusViolations(c1, c3, a, scores);
    var v := MissingScore(c3.name, a.name);
    assert Messages([v]) == [Message(v)];
    assert !AllPairsScored([c1, c3], [a], scores) by {
      assert [c1, c3][1] == c3 && [a][0] == a;
    }
  }

  /** The stale-record state (the records of StaleScores, which
      StaleRecordBlocksCalculate spells out) after a third criterion c3 is
      added and left unrated: the count matches again, so as written
      Calculate is enabled and the validator alerts the missing pair, while
      the corrected button stays disabled. */
  lemma SurplusRecordReachesValidator()
    ensures var criteria := [Criterion("c1", "Cost", 50), Criterion("c3", "Speed", 50)];
      var alternatives := [Alternative("a1", "A")];
      var scores := [Score("c1", "a1", 3), Score("c2", "a1", 4)];
      && IsComplete(criteria, alternatives, scores)
      && Violations(criteria, alternatives, scores) == [MissingScore("Speed", "A")]
      && ScoringOutcome(IsComplete(criteria, alternatives, scores), criteria, alternatives, scores)
           == Rejected(["Missing score for \"Speed\" and \"A\""])
      && ScoringOutcome(ReadyToCalculate(criteria, alternatives, scores), criteria, alternatives, scores)
           == Disabled
  {
    var c1, c3 := Criterion("c1", "Cost", 50), Criterion("c3", "Speed", 50);
    var a := Alternative("a1", "A");
    var scores := [Score("c1", "a1", 3), Score("c2", "a1", 4)];
    assert IsFor(scores[0], "c1", "a1");
    assert !HasScore(scores, "c3", "a1") by {
      assert !IsFor(scores[0], "c3", "a1") && !IsFor(scores[1], "c3", "a1");
    }
    SurplusViolations(c1, c3, a, scores);
    SurplusOutcomes(c1, c3, a, scores);
    assert Message(MissingScore("Speed", "A")) == "Missing score for \"Speed\" and \"A\"";
  }

  class Workflow {
    var step: Step
    var criteria: seq<Criterion>
    var alternatives: seq<Alternative>
    var scores: seq<Score>
    var weightedScores: seq<WeightedScore>

    /** Every step past the first was reached through the guards before it,
        and the results shown are the ranking of the current matrix, which
        the validator accepts. */
    ghost predicate Valid()
      reads this
    {
      && (StepNumber(step) >= 2 ==> CriteriaStep.CanProceed(criteria))
      && (StepNumber(step) >= 3 ==> AlternativesStep.CanProceed(alternatives))
      && (step == Results ==>
            && Violations(criteria, alternatives, scores) == []
            && weightedScores == Ranked(criteria, alternatives, scores))
    }

    /** The state the application starts in and returns to. */
    predicate IsInitial()
      reads this
    {
      step == Criteria && criteria == [] && alternatives == [] && scores == [] && weightedScores == []
    }

    /** The initial `useState` values: the first step, nothing entered. */
    constructor ()
      ensures Valid() && IsInitial()
    {
      step := Criteria;
      criteria := [];
      alternatives := [];
      scores := [];
      weightedScores := [];
    }

    /** The scoring case of `handleNext`, pressed through a Calculate
        button enabled exactly when `enabled` holds: run the validator; on
        no error store the ranking and move to the results, otherwise keep
        everything and return the messages the application alerts. */
    method Calculate(enabled: bool) returns (outcome: NextOutcome)
      requires Valid() && step == Scoring
      modifies this
      ensures Valid()
      ensures outcome == ScoringOutcome(enabled, criteria, alternatives, scores)
      ensures criteria == old(criteria) && alternatives == old(alternatives) && scores == old(scores)
      ensures outcome.Advanced? ==> step == Results
      ensures !outcome.Advanced? ==> step == Scoring && weightedScores == old(weightedScores)
    {
      if enabled {
        var errors := ValidateMatrix(criteria, alternatives, scores);
        if errors == [] {
          weightedScores := CalculateWeightedScores(criteria, alternatives, scores);
          step := Results;
          outcome := Advanced;
        } else {
          outcome := Rejected(errors);
        }
      } else {
        outcome := Disabled;
      }
    }

    /** `handleNext` behind the step's Next button, with the corrected
        Calculate button of the scoring step. The first two steps advance
        once their list is non-empty; the scoring step advances once every
        current pair is rated and the validator reports nothing, and then
        stores the ranking. Otherwise nothing changes. */
    method Next() returns (outcome: NextOutcome)
      requires Valid()
      modifies this
      ensures Valid()
      ensures criteria == old(criteria) && alternatives == old(alternatives) && scores == old(scores)
      ensures outcome.Advanced? ==> step == Successor(old(step))
      ensures !outcome.Advanced? ==> step == old(step) && weightedScores == old(weightedScores)
      ensures old(step) != Scoring ==> weightedScores == old(weightedScores)
      ensures old(step) != Scoring ==> outcome.Advanced? || outcome == Disabled
      ensures StepNumber(old(step)) <= StepNumber(step)
      ensures old(step) == Criteria ==> (outcome.Advanced? <==> CriteriaStep.CanProceed(criteria))
      ensures old(step) == Alternatives ==> (outcome.Advanced? <==> AlternativesStep.CanProceed(alternatives))
      ensures old(step) == Scoring ==>
        outcome == ScoringOutcome(ReadyToCalculate(criteria, alternatives, scores), criteria, alternatives, scores)
      ensures old(step) == Scoring ==> (outcome.Advanced? <==> Violations(criteria, alternatives, scores) == [])
      ensures outcome.Rejected? ==>
        outcome.errors == Messages(Violations(criteria, alternatives, scores)) && outcome.errors != []
      ensures old(step) == Results ==> outcome == Disabled
    {
      match step
      case Criteria =>
        if CriteriaStep.CanProceed(criteria) {
          step := Alternatives;
          outcome := Advanced;
        } else {
          outcome := Disabled;
        }
      case Alternatives =>
        if AlternativesStep.CanProceed(alternatives) {
          step := Scoring;
          outcome := Advanced;
        } else {
          outcome := Disabled;
        }
      case Scoring =>
        ValidIff(criteria, alternatives, scores);
        outcome := Calculate(ReadyToCalculate(criteria, alternatives, scores));
      case Results =>
        outcome := Disabled;
    }

    /** `handleNext` with the Calculate button as written: enabled by the
        count test `isComplete`. The other steps behave as in Next. */
    method NextAsWritten() returns (outcome: NextOutcome)
      requires Valid()
      modifies this
      ensures Valid()
      ensures criteria == old(criteria) && alternatives == old(alternatives) && scores == old(scores)
      ensures outcome.Advanced? ==> step == Successor(old(step))
      ensures !outcome.Advanced? ==> step == old(step) && weightedScores == old(weightedScores)
      ensures old(step) != Scoring ==> weightedScores == old(weightedScores)
      ensures old(step) != Scoring ==> outcome.Advanced? || outcome == Disabled
      ensures old(step) == Criteria ==> (outcome.Advanced? <==> CriteriaStep.CanProceed(criteria))
      ensures old(step) == Alternatives ==> (outcome.Advanced? <==> AlternativesStep.CanProceed(alternatives))
      ensures old(step) == Scoring ==>
        outcome == ScoringOutcome(IsComplete(criteria, alternatives, scores), criteria, alternatives, scores)
      ensures old(step) == Scoring ==>
        (outcome.Advanced? <==> IsComplete(criteria, alternatives, scores) && Violations(criteria, alternatives, scores) == [])
      ensures old(step) == Results ==> outcome == Disabled
    {
      if step == Scoring {
        outcome := Calculate(IsComplete(criteria, alternatives, scores));
      } else {
        outcome := Next();
      }
    }

    /** `handleBack`: one step earlier, or nothing on the first step; the
        matrix and the results are kept. */
    method Back()
      requires Valid()
      modifies this
      ensures Valid()
      ensures step == Predecessor(old(step))
      ensures StepNumber(step) <= StepNumber(old(step))
      ensures criteria == old(criteria) && alternatives == old(alternatives) && scores == old(scores)
      ensures weightedScores == old(weightedScores)
    {
      step := Predecessor(step);
    }

    /** `handleNewMatrix`: back to the initial state, whatever came before. */
    method NewMatrix()
      modifies this
      ensures Valid() && IsInitial()
    {
      step := Criteria;
      criteria := [];
      alternatives := [];
      scores := [];
      weightedScores := [];
    }

    /** `setCriteria`, the criteria step's `onUpdate`, which is rendered only
        on that step. */
    method UpdateCriteria(newCriteria: seq<Criterion>)
      requires Valid() && step == Criteria
      modifies this
      ensures Valid()
      ensures criteria == newCriteria
      ensures step == old(step) && alternatives == old(alternatives) && scores == old(scores)
      ensures weightedScores == old(weightedScores)
    {
      criteria := newCriteria;
    }

    /** `setAlternatives`, the alternatives step's `onUpdate`. */
    method UpdateAlternatives(newAlternatives: seq<Alternative>)
      requires Valid() && step == Alternatives
      modifies this
      ensures Valid()
      ensures alternatives == newAlternatives
      ensures step == old(step) && criteria == old(criteria) && scores == old(scores)
      ensures weightedScores == old(weightedScores)
    {
      alternatives := newAlternatives;
    }

    /** `setScores`, the scoring step's `onUpdate`. */
    method UpdateScores(newScores: seq<Score>)
      requires Valid() && step == Scoring
      modifies this
      ensures Valid()
      ensures scores == newScores
      ensures step == old(step) && criteria == old(criteria) && alternatives == old(alternatives)
      ensures weightedScores == old(weightedScores)
    {
      scores := newScores;
    }

    /** On the results step the table is a ranking of the current
        alternatives: one row each, ranks 1..N, totals never increasing, and
        the alternative ids a permutation of the current ones. */
    lemma ResultsAreRanking()
      requires Valid() && step == Results
      ensures |weightedScores| == |alternatives| && |weightedScores| > 0
      ensures forall i :: 0 <= i < |weightedScores| ==> weightedScores[i].rank == i + 1
      ensures NonIncreasing(weightedScores)
      ensures multiset(Ids(weightedScores)) == multiset(AlternativeIds(alternatives))
    {
      RankedProperties(criteria, alternatives, scores);
    }
  }
}
