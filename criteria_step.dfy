/** The criteria step (src/components/CriteriaStep.tsx): the add form's
    draft, and the copy-and-replace mutators that hand a whole new criteria
    list to the workflow. The new criterion's id (a timestamp in the
    application) is a parameter. */
module CriteriaStep {
  import opened Types
  import opened Text

  /** The add form: a name and a weight, as typed. */
  datatype Draft = Draft(name: string, weight: int)

  /** The form's initial and reset content. */
  const BlankDraft: Draft := Draft("", 10)

  /** The criteria list together with the add form after an operation. */
  datatype Edit = Edit(criteria: seq<Criterion>, draft: Draft)

  /** `newCriterion.name.trim() && criteria.length < 10`; the Add button
      is disabled exactly when this is false. */
  predicate CanAdd(criteria: seq<Criterion>, draft: Draft)
  {
    Trim(draft.name) != [] && |criteria| < MaxCriteria
  }

  /** `addCriterion`: appends one criterion carrying the trimmed name and the
      draft weight and resets the form, or changes nothing. */
  function AddCriterion(criteria: seq<Criterion>, draft: Draft, id: string): (r: Edit)
    ensures |r.criteria| == |criteria| + (if CanAdd(criteria, draft) then 1 else 0)
    ensures r.criteria[..|criteria|] == criteria
    ensures CanAdd(criteria, draft) ==>
      && r.criteria[|criteria|] == Criterion(id, Trim(draft.name), draft.weight)
      && r.draft == BlankDraft
    ensures !CanAdd(criteria, draft) ==> r.draft == draft
    ensures |criteria| <= MaxCriteria ==> |r.criteria| <= MaxCriteria
  {
    if CanAdd(criteria, draft) then
      Edit(criteria + [Criterion(id, Trim(draft.name), draft.weight)], BlankDraft)
    else
      Edit(criteria, draft)
  }

  /** The name stored by a successful add is non-empty and carries no white
      space at either end, whatever was typed. */
  lemma AddedNameIsTrimmed(criteria: seq<Criterion>, draft: Draft, id: string)
    requires CanAdd(criteria, draft)
    ensures var name := AddCriterion(criteria, draft, id).criteria[|criteria|].name;
      && name != []
      && !IsWhitespace(name[0]) && !IsWhitespace(name[|name| - 1])
  {
  }

  /** A name that is only white space is never added. */
  lemma BlankNameIgnored(criteria: seq<Criterion>, draft: Draft, id: string)
    requires forall k :: 0 <= k < |draft.name| ==> IsWhitespace(draft.name[k])
    ensures AddCriterion(criteria, draft, id) == Edit(criteria, draft)
  {
    TrimEmptyIff(draft.name);
  }

  /** The field a list row edits: its name box or its weight box. */
  datatype CriterionChange = SetName(name: string) | SetWeight(weight: int)

  function Apply(c: Criterion, change: CriterionChange): Criterion
  {
    match change
    case SetName(name) => c.(name := name)
    case SetWeight(weight) => c.(weight := weight)
  }

  /** `updateCriterion`: the entries with this id get the new field value;
      the list keeps its length, its order and its ids. */
  function UpdateCriterion(criteria: seq<Criterion>, id: string, change: CriterionChange): (r: seq<Criterion>)
    ensures |r| == |criteria|
    ensures CriterionIds(r) == CriterionIds(criteria)
    ensures forall k :: 0 <= k < |r| && criteria[k].id != id ==> r[k] == criteria[k]
    ensures forall k :: 0 <= k < |r| && criteria[k].id == id ==>
      match change
      case SetName(name) => r[k].name == name && r[k].weight == criteria[k].weight
      case SetWeight(weight) => r[k].weight == weight && r[k].name == criteria[k].name
  {
    seq(|criteria|, k requires 0 <= k < |criteria| =>
      if criteria[k].id == id then Apply(criteria[k], change) else criteria[k])
  }

  /** Writing the same field value twice is writing it once. */
  lemma UpdateIdempotent(criteria: seq<Criterion>, id: string, change: CriterionChange)
    ensures UpdateCriterion(UpdateCriterion(criteria, id, change), id, change) == UpdateCriterion(criteria, id, change)
  {
    var once := UpdateCriterion(criteria, id, change);
    var twice := UpdateCriterion(once, id, change);
    forall k | 0 <= k < |criteria| ensures twice[k] == once[k] {
      match change
      case SetName(name) =>
      case SetWeight(weight) =>
    }
  }

  /** Writing back the old name undoes a rename, when ids are distinct. */
  lemma RenameUndone(criteria: seq<Criterion>, k: nat, name: string)
    requires k < |criteria| && DistinctCriterionIds(criteria)
    ensures var id := criteria[k].id;
      UpdateCriterion(UpdateCriterion(criteria, id, SetName(name)), id, SetName(criteria[k].name)) == criteria
  {
    DistinctCriterionIdsIff(criteria);
    var id := criteria[k].id;
    var back := UpdateCriterion(UpdateCriterion(criteria, id, SetName(name)), id, SetName(criteria[k].name));
    forall m | 0 <= m < |criteria| ensures back[m] == criteria[m] {
      if criteria[m].id == id {
        assert m == k;
      }
    }
  }

  /** `removeCriterion`: keeps the entries with another id, in order. */
  function RemoveCriterion(criteria: seq<Criterion>, id: string): (r: seq<Criterion>)
    ensures |r| <= |criteria|
    ensures forall c :: c in r <==> c in criteria && c.id != id
  {
    if criteria == [] then []
    else (if criteria[0].id == id then [] else [criteria[0]]) + RemoveCriterion(criteria[1..], id)
  }

  /** Removal distributes over concatenation: relative order is kept. */
  lemma {:induction false} RemoveConcat(a: seq<Criterion>, b: seq<Criterion>, id: string)
    ensures RemoveCriterion(a + b, id) == RemoveCriterion(a, id) + RemoveCriterion(b, id)
  {
    if a == [] {
      assert a + b == b;
    } else {
      assert (a + b)[1..] == a[1..] + b;
      RemoveConcat(a[1..], b, id);
    }
  }

  /** Removing an id nobody carries changes nothing. */
  lemma {:induction false} RemoveAbsent(criteria: seq<Criterion>, id: string)
    requires forall k :: 0 <= k < |criteria| ==> criteria[k].id != id
    ensures RemoveCriterion(criteria, id) == criteria
  {
    if criteria != [] {
      RemoveAbsent(criteria[1..], id);
      assert criteria == [criteria[0]] + criteria[1..];
    }
  }

  /** Removing a criterion just added with a fresh id gives back the list. */
  lemma AddThenRemove(criteria: seq<Criterion>, draft: Draft, id: string)
    requires forall k :: 0 <= k < |criteria| ==> criteria[k].id != id
    ensures RemoveCriterion(AddCriterion(criteria, draft, id).criteria, id) == criteria
  {
    RemoveAbsent(criteria, id);
    if CanAdd(criteria, draft) {
      RemoveConcat(criteria, [Criterion(id, Trim(draft.name), draft.weight)], id);
    }
  }

  /** Adding with a fresh id keeps the ids distinct. */
  lemma AddKeepsIdsDistinct(criteria: seq<Criterion>, draft: Draft, id: string)
    requires DistinctCriterionIds(criteria)
    requires forall k :: 0 <= k < |criteria| ==> criteria[k].id != id
    ensures DistinctCriterionIds(AddCriterion(criteria, draft, id).criteria)
  {
    DistinctCriterionIdsIff(criteria);
    DistinctCriterionIdsIff(AddCriterion(criteria, draft, id).criteria);
  }

  /** Removal keeps distinct ids distinct. */
  lemma {:induction false} RemoveKeepsIdsDistinct(criteria: seq<Criterion>, id: string)
    requires DistinctCriterionIds(criteria)
    ensures DistinctCriterionIds(RemoveCriterion(criteria, id))
  {
    DistinctCriterionIdsIff(criteria);
    DistinctCriterionIdsIff(RemoveCriterion(criteria, id));
    if criteria != [] {
      var rest := RemoveCriterion(criteria[1..], id);
      DistinctCriterionIdsIff(criteria[1..]);
      RemoveKeepsIdsDistinct(criteria[1..], id);
      DistinctCriterionIdsIff(rest);
      forall k | 0 <= k < |rest| ensures rest[k].id != criteria[0].id {
        assert rest[k] in criteria[1..];
      }
    }
  }

  /** `criteria.reduce((sum, c) => sum + c.weight, 0)`. */
  function TotalWeight(criteria: seq<Criterion>): int
  {
    if criteria == [] then 0
    else TotalWeight(criteria[..|criteria| - 1]) + criteria[|criteria| - 1].weight
  }

  lemma {:induction false} TotalWeightConcat(a: seq<Criterion>, b: seq<Criterion>)
    ensures TotalWeight(a + b) == TotalWeight(a) + TotalWeight(b)
  {
    if b == [] {
      assert a + b == a;
    } else {
      assert (a + b)[..|a + b| - 1] == a + b[..|b| - 1];
      TotalWeightConcat(a, b[..|b| - 1]);
    }
  }

  /** A successful add raises the total by the draft weight. */
  lemma AddTotalWeight(criteria: seq<Criterion>, draft: Draft, id: string)
    ensures TotalWeight(AddCriterion(criteria, draft, id).criteria)
      == TotalWeight(criteria) + (if CanAdd(criteria, draft) then draft.weight else 0)
  {
    if CanAdd(criteria, draft) {
      TotalWeightConcat(criteria, [Criterion(id, Trim(draft.name), draft.weight)]);
      assert [Criterion(id, Trim(draft.name), draft.weight)][..0] == [];
    }
  }

  lemma RemoveLast(init: seq<Criterion>, last: Criterion, id: string)
    ensures RemoveCriterion(init + [last], id) == RemoveCriterion(init, id) + (if last.id == id then [] else [last])
  {
    RemoveConcat(init, [last], id);
    assert [last][1..] == [];
  }

  lemma RemoveBeforeLast(init: seq<Criterion>, last: Criterion, id: string)
    requires last.id != id
    ensures TotalWeight(RemoveCriterion(init + [last], id)) == TotalWeight(RemoveCriterion(init, id)) + last.weight
  {
    RemoveLast(init, last, id);
    TotalWeightConcat(RemoveCriterion(init, id), [last]);
    assert [last][..0] == [];
  }

  lemma RemoveTheLast(init: seq<Criterion>, last: Criterion)
    requires forall m :: 0 <= m < |init| ==> init[m].id != last.id
    ensures TotalWeight(RemoveCriterion(init + [last], last.id)) == TotalWeight(init)
  {
    RemoveLast(init, last, last.id);
    RemoveAbsent(init, last.id);
    assert init + [] == init;
  }

  /** With distinct ids, removing the criterion at k lowers the total by its
      weight. */
  lemma {:induction false} RemoveTotalWeight(criteria: seq<Criterion>, k: nat)
    requires k < |criteria| && DistinctCriterionIds(criteria)
    ensures TotalWeight(RemoveCriterion(criteria, criteria[k].id)) == TotalWeight(criteria) - criteria[k].weight
  {
    var n := |criteria|;
    var init, last := criteria[..n - 1], criteria[n - 1];
    assert criteria == init + [last];
    DistinctCriterionIdsIff(criteria);
    DistinctCriterionIdsIff(init);
    if k == n - 1 {
      forall m | 0 <= m < |init| ensures init[m].id != last.id {
        assert init[m] == criteria[m];
      }
      RemoveTheLast(init, last);
    } else {
      assert init[k] == criteria[k];
      assert DistinctCriterionIds(init);
      RemoveTotalWeight(init, k);
      RemoveBeforeLast(init, last, criteria[k].id);
    }
  }

  /** With distinct ids, setting the weight of the criterion at k to w
      changes the total by w minus its old weight; a rename leaves it. */
  lemma UpdateTotalWeight(criteria: seq<Criterion>, k: nat, change: CriterionChange)
    requires k < |criteria| && DistinctCriterionIds(criteria)
    ensures TotalWeight(UpdateCriterion(criteria, criteria[k].id, change))
      == TotalWeight(criteria) + (if change.SetWeight? then change.weight - criteria[k].weight else 0)
  {
    var r := UpdateCriterion(criteria, criteria[k].id, change);
    DistinctCriterionIdsIff(criteria);
    forall m | 0 <= m < |criteria| && m != k ensures criteria[m].weight == r[m].weight {
      assert criteria[m].id != criteria[k].id;
    }
    OneWeightChanged(criteria, r, k);
  }

  /** Lists whose weights differ at most at position k have totals that
      differ by the change at k. */
  lemma {:induction false} OneWeightChanged(a: seq<Criterion>, b: seq<Criterion>, k: nat)
    requires |a| == |b| && k < |a|
    requires forall m :: 0 <= m < |a| && m != k ==> a[m].weight == b[m].weight
    ensures TotalWeight(b) == TotalWeight(a) + (b[k].weight - a[k].weight)
  {
    var n := |a|;
    if k == n - 1 {
      SameWeights(a[..n - 1], b[..n - 1]);
    } else {
      OneWeightChanged(a[..n - 1], b[..n - 1], k);
    }
  }

  /** Lists with the same weights, position by position, have the same total. */
  lemma {:induction false} SameWeights(a: seq<Criterion>, b: seq<Criterion>)
    requires |a| == |b|
    requires forall k :: 0 <= k < |a| ==> a[k].weight == b[k].weight
    ensures TotalWeight(a) == TotalWeight(b)
  {
    if a != [] {
      SameWeights(a[..|a| - 1], b[..|b| - 1]);
    }
  }

  /** The orange hint under the list: the list and its total are shown only
      when there is at least one criterion, and the hint exactly when the
      weights then do not total 100. */
  predicate WeightWarning(criteria: seq<Criterion>)
  {
    |criteria| > 0 && TotalWeight(criteria) != 100
  }

  /** The Next button: enabled exactly when there is at least one criterion. */
  predicate CanProceed(criteria: seq<Criterion>)
  {
    |criteria| > 0
  }

  /** Re-weighting the criterion at k shows the hint exactly when the new
      total misses 100, and never changes whether Next is enabled: the hint
      is advice only. */
  lemma ReweightWarning(criteria: seq<Criterion>, k: nat, w: int)
    requires k < |criteria| && DistinctCriterionIds(criteria)
    ensures var r := UpdateCriterion(criteria, criteria[k].id, SetWeight(w));
      && (WeightWarning(r) <==> TotalWeight(criteria) - criteria[k].weight + w != 100)
      && CanProceed(r) == CanProceed(criteria)
  {
    UpdateTotalWeight(criteria, k, SetWeight(w));
  }
}
