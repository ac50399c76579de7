/** The alternatives step (src/components/AlternativesStep.tsx): the add
    form's text, and the copy-and-replace mutators over the alternatives
    list, capped at three. The new alternative's id is a parameter. */
module AlternativesStep {
  import opened Types
  import opened Text

  /** The alternatives list together with the add form's text. */
  datatype Edit = Edit(alternatives: seq<Alternative>, draft: string)

  /** `newAlternative.trim() && alternatives.length < 3`; the Add button is
      disabled exactly when this is false. */
  predicate CanAdd(alternatives: seq<Alternative>, draft: string)
  {
    Trim(draft) != [] && |alternatives| < MaxAlternatives
  }

  /** `addAlternative`: appends one alternative with the trimmed name and
      clears the form, or changes nothing (the text stays as typed). */
  function AddAlternative(alternatives: seq<Alternative>, draft: string, id: string): (r: Edit)
    ensures |r.alternatives| == |alternatives| + (if CanAdd(alternatives, draft) then 1 else 0)
    ensures r.alternatives[..|alternatives|] == alternatives
    ensures CanAdd(alternatives, draft) ==>
      r.alternatives[|alternatives|] == Alternative(id, Trim(draft)) && r.draft == ""
    ensures !CanAdd(alternatives, draft) ==> r.draft == draft
    ensures |alternatives| <= MaxAlternatives ==> |r.alternatives| <= MaxAlternatives
  {
    if CanAdd(alternatives, draft) then
      Edit(alternatives + [Alternative(id, Trim(draft))], "")
    else
      Edit(alternatives, draft)
  }

  /** The stored name of a successful add is non-empty and trimmed. */
  lemma AddedNameIsTrimmed(alternatives: seq<Alternative>, draft: string, id: string)
    requires CanAdd(alternatives, draft)
    ensures var name := AddAlternative(alternatives, draft, id).alternatives[|alternatives|].name;
      && name != []
      && !IsWhitespace(name[0]) && !IsWhitespace(name[|name| - 1])
  {
  }

  /** From three alternatives on, adding is a no-op whatever the text. */
  lemma FullListIgnoresAdd(alternatives: seq<Alternative>, draft: string, id: string)
    requires |alternatives| >= MaxAlternatives
    ensures AddAlternative(alternatives, draft, id) == Edit(alternatives, draft)
  {
  }

  /** `updateAlternative`: the entries with this id get the new name; the
      list keeps its length, order and ids. */
  function UpdateAlternative(alternatives: seq<Alternative>, id: string, name: string): (r: seq<Alternative>)
    ensures |r| == |alternatives|
    ensures AlternativeIds(r) == AlternativeIds(alternatives)
    ensures forall k :: 0 <= k < |r| ==>
      r[k].name == (if alternatives[k].id == id then name else alternatives[k].name)
  {
    seq(|alternatives|, k requires 0 <= k < |alternatives| =>
      if alternatives[k].id == id then alternatives[k].(name := name) else alternatives[k])
  }

  /** A later rename of the same id overrides an earlier one. */
  lemma RenameTwice(alternatives: seq<Alternative>, id: string, first: string, second: string)
    ensures UpdateAlternative(UpdateAlternative(alternatives, id, first), id, second)
      == UpdateAlternative(alternatives, id, second)
  {
  }

  /** Writing back the old name undoes a rename, when ids are distinct. */
  lemma RenameUndone(alternatives: seq<Alternative>, k: nat, name: string)
    requires k < |alternatives| && DistinctAlternativeIds(alternatives)
    ensures var id := alternatives[k].id;
      UpdateAlternative(UpdateAlternative(alternatives, id, name), id, alternatives[k].name) == alternatives
  {
    DistinctAlternativeIdsIff(alternatives);
    var id := alternatives[k].id;
    var back := UpdateAlternative(UpdateAlternative(alternatives, id, name), id, alternatives[k].name);
    forall m | 0 <= m < |alternatives| ensures back[m] == alternatives[m] {
      if alternatives[m].id == id {
        assert m == k;
      }
    }
  }

  /** `removeAlternative`: keeps the entries with another id, in order. */
  function RemoveAlternative(alternatives: seq<Alternative>, id: string): (r: seq<Alternative>)
    ensures |r| <= |alternatives|
    ensures forall a :: a in r <==> a in alternatives && a.id != id
  {
    if alternatives == [] then []
    else (if alternatives[0].id == id then [] else [alternatives[0]]) + RemoveAlternative(alternatives[1..], id)
  }

  /** Removal distributes over concatenation: relative order is kept. */
  lemma {:induction false} RemoveConcat(a: seq<Alternative>, b: seq<Alternative>, id: string)
    ensures RemoveAlternative(a + b, id) == RemoveAlternative(a, id) + RemoveAlternative(b, id)
  {
    if a == [] {
      assert a + b == b;
    } else {
      assert (a + b)[1..] == a[1..] + b;
      RemoveConcat(a[1..], b, id);
    }
  }

  /** Removing an id nobody carries changes nothing. */
  lemma {:induction false} RemoveAbsent(alternatives: seq<Alternative>, id: string)
    requires forall k :: 0 <= k < |alternatives| ==> alternatives[k].id != id
    ensures RemoveAlternative(alternatives, id) == alternatives
  {
    if alternatives != [] {
      RemoveAbsent(alternatives[1..], id);
      assert alternatives == [alternatives[0]] + alternatives[1..];
    }
  }

  /** Removing an alternative just added with a fresh id gives back the
      list. */
  lemma AddThenRemove(alternatives: seq<Alternative>, draft: string, id: string)
    requires forall k :: 0 <= k < |alternatives| ==> alternatives[k].id != id
    ensures RemoveAlternative(AddAlternative(alternatives, draft, id).alternatives, id) == alternatives
  {
    RemoveAbsent(alternatives, id);
    if CanAdd(alternatives, draft) {
      RemoveConcat(alternatives, [Alternative(id, Trim(draft))], id);
    }
  }

  lemma RemoveSingle(before: seq<Alternative>, x: Alternative, after: seq<Alternative>)
    requires forall m :: 0 <= m < |before| ==> before[m].id != x.id
    requires forall m :: 0 <= m < |after| ==> after[m].id != x.id
    ensures RemoveAlternative(before + [x] + after, x.id) == before + after
  {
    RemoveConcat(before + [x], after, x.id);
    RemoveConcat(before, [x], x.id);
    RemoveAbsent(before, x.id);
    RemoveAbsent(after, x.id);
    assert [x][1..] == [];
    assert before + [] == before;
  }

  /** With distinct ids, removing the alternative at k removes exactly that
      entry. */
  lemma RemoveAt(alternatives: seq<Alternative>, k: nat)
    requires k < |alternatives| && DistinctAlternativeIds(alternatives)
    ensures RemoveAlternative(alternatives, alternatives[k].id) == alternatives[..k] + alternatives[k + 1..]
  {
    var before, after, x := alternatives[..k], alternatives[k + 1..], alternatives[k];
    DistinctAlternativeIdsIff(alternatives);
    assert alternatives == before + [x] + after by {
      assert alternatives[k..] == [x] + after;
    }
    forall m | 0 <= m < |before| ensures before[m].id != x.id {
      assert before[m] == alternatives[m];
    }
    forall m | 0 <= m < |after| ensures after[m].id != x.id {
      assert after[m] == alternatives[k + 1 + m];
    }
    RemoveSingle(before, x, after);
  }

  /** Adding with a fresh id keeps the ids distinct. */
  lemma AddKeepsIdsDistinct(alternatives: seq<Alternative>, draft: string, id: string)
    requires DistinctAlternativeIds(alternatives)
    requires forall k :: 0 <= k < |alternatives| ==> alternatives[k].id != id
    ensures DistinctAlternativeIds(AddAlternative(alternatives, draft, id).alternatives)
  {
    DistinctAlternativeIdsIff(alternatives);
    DistinctAlternativeIdsIff(AddAlternative(alternatives, draft, id).alternatives);
  }

  /** Removal keeps distinct ids distinct. */
  lemma {:induction false} RemoveKeepsIdsDistinct(alternatives: seq<Alternative>, id: string)
    requires DistinctAlternativeIds(alternatives)
    ensures DistinctAlternativeIds(RemoveAlternative(alternatives, id))
  {
    DistinctAlternativeIdsIff(alternatives);
    DistinctAlternativeIdsIff(RemoveAlternative(alternatives, id));
    if alternatives != [] {
      var rest := RemoveAlternative(alternatives[1..], id);
      DistinctAlternativeIdsIff(alternatives[1..]);
      RemoveKeepsIdsDistinct(alternatives[1..], id);
      DistinctAlternativeIdsIff(rest);
      forall k | 0 <= k < |rest| ensures rest[k].id != alternatives[0].id {
        assert rest[k] in alternatives[1..];
      }
    }
  }

  /** The Next button: enabled exactly when there is at least one
      alternative. */
  predicate CanProceed(alternatives: seq<Alternative>)
  {
    |alternatives| > 0
  }

  /** A successful add always makes the list ready to proceed. */
  lemma AddEnablesNext(alternatives: seq<Alternative>, draft: string, id: string)
    requires CanAdd(alternatives, draft)
    ensures CanProceed(AddAlternative(alternatives, draft, id).alternatives)
  {
  }
}
