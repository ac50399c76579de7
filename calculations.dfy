/** The scoring engine, `calculateWeightedScores` (src/utils/calculations.ts).
    The per-alternative breakdown (`criteria.map`) and the total (`reduce`)
    are functions; the outer part, which pushes one entry per alternative,
    sorts and then writes the ranks, is a method proved against Ranked. */
module Calculations {
  import opened Types
  import opened Ratings
  import opened Ranking

  /** One line per criterion, in criteria order: the rating of the pair (the
      first record's value, 0 when there is none) and that rating times the
      criterion's weight. */
  function Breakdown(criteria: seq<Criterion>, alternative: Alternative, scores: seq<Score>): (r: seq<CriterionScore>)
    ensures |r| == |criteria|
    ensures forall k :: 0 <= k < |r| ==>
      && r[k].criterionName == criteria[k].name
      && r[k].rawScore == (if HasScore(scores, criteria[k].id, alternative.id)
                           then scores[FindScoreIndex(scores, criteria[k].id, alternative.id)].value
                           else 0)
      && r[k].weightedScore == r[k].rawScore * criteria[k].weight
  {
    seq(|criteria|, k requires 0 <= k < |criteria| =>
      var raw := GetScore(scores, criteria[k].id, alternative.id);
      CriterionScore(criteria[k].name, raw, raw * criteria[k].weight))
  }

  /** `reduce((sum, cs) => sum + cs.weightedScore, 0)`: the left-to-right sum. */
  function Total(breakdown: seq<CriterionScore>): int
  {
    if breakdown == [] then 0
    else Total(breakdown[..|breakdown| - 1]) + breakdown[|breakdown| - 1].weightedScore
  }

  /** The total of a concatenation is the sum of the totals, so with
      integer values the summation order does not matter. */
  lemma {:induction false} TotalSplit(a: seq<CriterionScore>, b: seq<CriterionScore>)
    ensures Total(a + b) == Total(a) + Total(b)
  {
    if b == [] {
      assert a + b == a;
    } else {
      assert (a + b)[..|a + b| - 1] == a + b[..|b| - 1];
      TotalSplit(a, b[..|b| - 1]);
    }
  }

  /** The entry pushed for one alternative, before ranks are written. */
  function Entry(criteria: seq<Criterion>, alternative: Alternative, scores: seq<Score>): WeightedScore
  {
    var breakdown := Breakdown(criteria, alternative, scores);
    WeightedScore(alternative.id, alternative.name, Total(breakdown), 0, breakdown)
  }

  /** The result list after the `forEach`/`push` loop: one entry per
      alternative, in input order. */
  function Unranked(criteria: seq<Criterion>, alternatives: seq<Alternative>, scores: seq<Score>): seq<WeightedScore>
  {
    seq(|alternatives|, k requires 0 <= k < |alternatives| => Entry(criteria, alternatives[k], scores))
  }

  /** `item.rank = index + 1` for every item. */
  function AssignRanks(s: seq<WeightedScore>): seq<WeightedScore>
  {
    seq(|s|, i requires 0 <= i < |s| => s[i].(rank := i + 1))
  }

  /** What calculateWeightedScores returns. */
  function Ranked(criteria: seq<Criterion>, alternatives: seq<Alternative>, scores: seq<Score>): seq<WeightedScore>
  {
    AssignRanks(SortByTotal(Unranked(criteria, alternatives, scores)))
  }

  /** The entries with their ranks cleared, for comparing rows before and
      after ranks are written. */
  function Unrank(s: seq<WeightedScore>): seq<WeightedScore>
  {
    seq(|s|, i requires 0 <= i < |s| => s[i].(rank := 0))
  }

  lemma {:induction false} UnrankWithTotal(s: seq<WeightedScore>, t: int)
    ensures Unrank(WithTotal(s, t)) == WithTotal(Unrank(s), t)
  {
    if s != [] {
      UnrankWithTotal(s[1..], t);
      assert Unrank(s)[1..] == Unrank(s[1..]);
      var head := if s[0].totalScore == t then [s[0]] else [];
      assert Unrank(head + WithTotal(s[1..], t)) == Unrank(head) + Unrank(WithTotal(s[1..], t));
    }
  }

  /** The ranking has exactly one row per alternative, each being the entry
      of some alternative with its rank set, and the ranks are 1, 2, ..., N. */
  lemma RankedRows(criteria: seq<Criterion>, alternatives: seq<Alternative>, scores: seq<Score>)
    ensures var r := Ranked(criteria, alternatives, scores);
      && |r| == |alternatives|
      && (forall i :: 0 <= i < |r| ==> r[i].rank == i + 1)
      && (forall i :: 0 <= i < |r| ==>
            exists k :: 0 <= k < |alternatives| && r[i] == Entry(criteria, alternatives[k], scores).(rank := i + 1))
  {
    var u := Unranked(criteria, alternatives, scores);
    var sorted := SortByTotal(u);
    assert |sorted| == |u| && multiset(sorted) == multiset(u) by {
      SortIsStable(u);
    }
    forall i | 0 <= i < |sorted|
      ensures exists k :: 0 <= k < |alternatives| && sorted[i] == Entry(criteria, alternatives[k], scores)
    {
      assert sorted[i] in multiset(u);
    }
  }

  /** The alternative ids of the ranking are a permutation of the input
      ids. */
  lemma RankedIds(criteria: seq<Criterion>, alternatives: seq<Alternative>, scores: seq<Score>)
    ensures multiset(Ids(Ranked(criteria, alternatives, scores))) == multiset(AlternativeIds(alternatives))
  {
    var u := Unranked(criteria, alternatives, scores);
    var sorted := SortByTotal(u);
    assert multiset(Ids(sorted)) == multiset(Ids(u)) by {
      SortIsStable(u);
    }
    assert Ids(u) == AlternativeIds(alternatives);
    assert Ids(AssignRanks(sorted)) == Ids(sorted);
  }

  /** Totals never increase down the ranking, and rows with equal totals
      keep the input order. */
  lemma RankedOrder(criteria: seq<Criterion>, alternatives: seq<Alternative>, scores: seq<Score>)
    ensures var r := Ranked(criteria, alternatives, scores);
      && NonIncreasing(r)
      && forall t :: Unrank(WithTotal(r, t)) == WithTotal(Unranked(criteria, alternatives, scores), t)
  {
    var u := Unranked(criteria, alternatives, scores);
    var sorted := SortByTotal(u);
    var r := AssignRanks(sorted);
    assert NonIncreasing(sorted) && forall t :: WithTotal(sorted, t) == WithTotal(u, t) by {
      SortIsStable(u);
    }
    assert Unrank(r) == Unrank(sorted);
    assert Unrank(u) == u;
    forall t ensures Unrank(WithTotal(r, t)) == WithTotal(u, t) {
      UnrankWithTotal(r, t);
      UnrankWithTotal(sorted, t);
      UnrankWithTotal(u, t);
    }
  }

  /** All of the above: what `calculateWeightedScores` promises its
      callers. */
  lemma RankedProperties(criteria: seq<Criterion>, alternatives: seq<Alternative>, scores: seq<Score>)
    ensures var r := Ranked(criteria, alternatives, scores);
      && |r| == |alternatives|
      && (forall i :: 0 <= i < |r| ==> r[i].rank == i + 1)
      && (forall i :: 0 <= i < |r| ==>
            exists k :: 0 <= k < |alternatives| && r[i] == Entry(criteria, alternatives[k], scores).(rank := i + 1))
      && multiset(Ids(r)) == multiset(AlternativeIds(alternatives))
      && NonIncreasing(r)
      && forall t :: Unrank(WithTotal(r, t)) == WithTotal(Unranked(criteria, alternatives, scores), t)
  {
    RankedRows(criteria, alternatives, scores);
    RankedIds(criteria, alternatives, scores);
    RankedOrder(criteria, alternatives, scores);
  }

  /** `calculateWeightedScores`: push one entry per alternative, sort by
      total (the library's stable sort), then number the rows from 1. */
  method CalculateWeightedScores(criteria: seq<Criterion>, alternatives: seq<Alternative>, scores: seq<Score>)
    returns (result: seq<WeightedScore>)
    ensures result == Ranked(criteria, alternatives, scores)
  {
    result := [];
    for k := 0 to |alternatives|
      invariant |result| == k
      invariant forall j :: 0 <= j < k ==> result[j] == Entry(criteria, alternatives[j], scores)
    {
      var criterionScores := Breakdown(criteria, alternatives[k], scores);
      var totalScore := Total(criterionScores);
      result := result + [WeightedScore(alternatives[k].id, alternatives[k].name, totalScore, 0, criterionScores)];
    }
    assert result == Unranked(criteria, alternatives, scores);
    result := SortByTotal(result);
    ghost var sorted := result;
    for i := 0 to |result|
      invariant |result| == |sorted|
      invariant forall j :: 0 <= j < i ==> result[j] == sorted[j].(rank := j + 1)
      invariant forall j :: i <= j < |result| ==> result[j] == sorted[j]
    {
      result := result[i := result[i].(rank := i + 1)];
    }
  }

  /** The sample matrix: Cost (weight 60) and Quality (weight 40); A rated
      3 and 5, B rated 5 and 2. */
  function SampleCriteria(): seq<Criterion> {
    [Criterion("c1", "Cost", 60), Criterion("c2", "Quality", 40)]
  }

  function SampleAlternatives(): seq<Alternative> {
    [Alternative("a1", "A"), Alternative("a2", "B")]
  }

  function SampleScores(): seq<Score> {
    [Score("c1", "a1", 3), Score("c2", "a1", 5), Score("c1", "a2", 5), Score("c2", "a2", 2)]
  }

  /** With two criteria the total is the sum of the two weighted ratings. */
  lemma TotalOfTwo(first: Criterion, second: Criterion, alternative: Alternative, scores: seq<Score>)
    ensures Entry([first, second], alternative, scores).totalScore
      == GetScore(scores, first.id, alternative.id) * first.weight
       + GetScore(scores, second.id, alternative.id) * second.weight
  {
    var bd := Breakdown([first, second], alternative, scores);
    assert bd[..1][..0] == [];
    assert Total(bd[..1]) == bd[0].weightedScore;
    assert Total(bd) == Total(bd[..1]) + bd[1].weightedScore;
  }

  /** Each sample alternative totals 380. */
  lemma SampleTotal(k: nat)
    requires k < 2
    ensures Entry(SampleCriteria(), SampleAlternatives()[k], SampleScores()).totalScore == 380
  {
    var ss := SampleScores();
    var alt := SampleAlternatives()[k];
    TotalOfTwo(Criterion("c1", "Cost", 60), Criterion("c2", "Quality", 40), alt, ss);
    if k == 0 {
      FirstMatchAt(ss, "c1", "a1", 0);
      FirstMatchAt(ss, "c2", "a1", 1);
    } else {
      FirstMatchAt(ss, "c1", "a2", 2);
      FirstMatchAt(ss, "c2", "a2", 3);
    }
  }

  /** Two alternatives with equal totals are ranked in input order. */
  lemma RankedTieOfTwo(criteria: seq<Criterion>, a: Alternative, b: Alternative, scores: seq<Score>)
    requires Entry(criteria, a, scores).totalScore == Entry(criteria, b, scores).totalScore
    ensures Ranked(criteria, [a, b], scores)
      == [Entry(criteria, a, scores).(rank := 1), Entry(criteria, b, scores).(rank := 2)]
  {
    var ea, eb := Entry(criteria, a, scores), Entry(criteria, b, scores);
    assert Unranked(criteria, [a, b], scores) == [ea, eb];
    SortTieOfTwo(ea, eb);
  }

  /** A and B both total 3*60 + 5*40 = 5*60 + 2*40 = 380: the tie keeps input
      order, so A is ranked 1 and B 2. */
  lemma TieKeepsInputOrder()
    ensures var r := Ranked(SampleCriteria(), SampleAlternatives(), SampleScores());
      && |r| == 2
      && r[0].alternativeId == "a1" && r[0].totalScore == 380 && r[0].rank == 1
      && r[1].alternativeId == "a2" && r[1].totalScore == 380 && r[1].rank == 2
  {
    var alts := SampleAlternatives();
    SampleTotal(0);
    SampleTotal(1);
    assert alts == [alts[0], alts[1]];
    RankedTieOfTwo(SampleCriteria(), alts[0], alts[1], SampleScores());
  }
}
