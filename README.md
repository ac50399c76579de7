# Decision matrix: a verified model

Decision Matrix is a single-page application. The user lists weighted
criteria, lists up to three alternatives, rates every alternative against
every criterion on a 0–5 scale, and reads a ranking by weighted total. This
project models the application's core in Dafny and proves properties of that
model. The core is:

- the scoring engine `calculateWeightedScores`: per-criterion breakdown,
  total, stable sort by total (highest first) and rank numbering;
- the validator `validateMatrix`: an ordered list of error messages;
- the copy-and-replace mutators of the three step components
  (criteria, alternatives, ratings);
- the four-step workflow of the `App` component.

The modules follow the source's units. `Text`, `Ratings` and `Ranking` model the library calls (`trim`, the array searches, `sort`) that those units rely on:

| module | file | models |
|---|---|---|
| `Types` | types.dfy | the entities of `src/types.ts`, the four steps, the caps 10 and 3 |
| `Text` | text.dfy | `String.prototype.trim` (ECMAScript white space and line terminators) |
| `Ratings` | ratings.dfy | `findIndex` / `find` / `some` over the ratings, keyed on (criterionId, alternativeId) |
| `Ranking` | ranking.dfy | the stable `sort` by total, highest first |
| `Calculations` | calculations.dfy | `calculateWeightedScores` |
| `Validation` | validation.dfy | `validateMatrix` |
| `CriteriaStep`, `AlternativesStep`, `ScoringStep` | criteria_step.dfy, alternatives_step.dfy, scoring_step.dfy | the step components' handlers and button conditions |
| `App` | app.dfy | the `App` component's five state variables and its handlers, as a class |

Some code is pure: the breakdown, the total, the mutators and the lookups.
It is written as functions with lemmas. Some code changes things step by
step: the engine's `forEach`/`push` loop and rank loop, the validator's
pushes, and the workflow's state variables. That code is written as methods
over loops and as a class. Each such method is proved equal to a
specification function: `Ranked` for the engine and `Violations` for the
validator. The properties are then proved about those functions.

Numbers are integers throughout. Weights come from `parseInt(...) || 0` and
ratings from a select of 0..5, so every stored value is an integer, and every
derived value is a sum of products of integers.

## Model

| member | source | states |
|---|---|---|
| Text.Trim | src/components/CriteriaStep.tsx:14-17 | the trimmed name is no longer than the input and, when non-empty, has no white space at either end |
| Text.TrimEmptyIff | src/components/CriteriaStep.tsx:14 | `name.trim()` is empty (falsy) exactly when every character of the name is white space |
| Text.TrimSlice | src/components/AlternativesStep.tsx:20-23 | the trimmed text is a contiguous slice of the input, with only white space before and after it |
| Ratings.FindScoreIndex | src/components/ScoringStep.tsx:22-24 | the index is -1 exactly when no record matches the pair; otherwise it holds a matching record and no earlier index does |
| Ratings.FindScore | src/utils/calculations.ts:12-14 | `find` returns nothing exactly when `findIndex` is -1, and otherwise the record at that index |
| Ratings.GetScore | src/components/ScoringStep.tsx:38-43 | `score?.value \|\| 0`: 0 when no record matches, else the value of the first matching record |
| Ratings.HasScore | src/utils/calculations.ts:79-81 | `scores.some(...)`: some record is keyed on exactly this (criterion, alternative) pair; `Ratings.HasScoreIffFound` ties it to `findIndex` |
| Ratings.HasScoreIffFound | src/utils/calculations.ts:79-81 | `some` with the pair predicate holds exactly when `findIndex` finds an index |
| Ratings.FirstMatchAt | src/components/ScoringStep.tsx:22-24 | a matching record with no earlier match is the one `findIndex` returns |
| Ranking.SortByTotal | src/utils/calculations.ts:37 | `sort((a, b) => b.totalScore - a.totalScore)`, as an insertion sort; that it is the stable sort, highest first, is stated by `Ranking.SortIsStable` and `Ranking.StableSortOfIsSortByTotal` |
| Ranking.SortIsStable | src/utils/calculations.ts:37 | the sort is a permutation of its input (entries and alternative ids), never increases in total, and keeps the input order among equal totals |
| Ranking.StableSortIsUnique | src/utils/calculations.ts:37 | two non-increasing arrangements with the same per-total subsequences are equal, so a stable sort with this comparator has exactly one result |
| Ranking.StableSortOfIsSortByTotal | src/utils/calculations.ts:37 | any stable sort of the entries by total, highest first, equals the modelled sort |
| Ranking.SortTieOfTwo | src/utils/calculations.ts:37 | two entries with equal totals stay in input order |
| Calculations.Breakdown | src/utils/calculations.ts:11-23 | one line per criterion in criteria order, carrying the criterion's name, the pair's first rating (0 when unrated) and that rating times the weight |
| Calculations.Total | src/utils/calculations.ts:25 | the `reduce` sum of the weighted scores of a breakdown, starting from 0; `Calculations.TotalSplit` states how it splits over a concatenation |
| Calculations.TotalSplit | src/utils/calculations.ts:25 | the `reduce` total of a concatenation is the sum of the two totals |
| Calculations.Ranked | src/utils/calculations.ts:3-43 | the engine's result as a value: one row per alternative, sorted by total and numbered 1, 2, ...; its properties are `Calculations.RankedRows`, `RankedIds`, `RankedOrder` and `RankedProperties`, and `Calculations.CalculateWeightedScores` returns it |
| Calculations.RankedRows | src/utils/calculations.ts:10-40 | one row per alternative, row i is some alternative's entry with rank i + 1 |
| Calculations.RankedIds | src/utils/calculations.ts:27-40 | the alternative ids of the ranking are a permutation of the input ids |
| Calculations.RankedOrder | src/utils/calculations.ts:37-40 | totals never increase down the ranking, and rows with equal totals keep the alternatives' input order |
| Calculations.RankedProperties | src/utils/calculations.ts:3-43 | all of the above, for every matrix |
| Calculations.CalculateWeightedScores | src/utils/calculations.ts:3-43 | the push loop, the sort and the rank loop return exactly `Ranked` of the inputs |
| Calculations.TotalOfTwo | src/utils/calculations.ts:25 | with two criteria the total is the sum of the two weighted ratings |
| Calculations.SampleTotal | src/utils/calculations.ts:11-25 | in the sample matrix both alternatives total 380 |
| Calculations.RankedTieOfTwo | src/utils/calculations.ts:37-40 | two alternatives with equal totals are ranked 1 and 2 in input order |
| Calculations.TieKeepsInputOrder | src/utils/calculations.ts:37-40 | in the sample matrix A and B tie at 380 and A keeps rank 1 |
| Validation.Message | src/utils/calculations.ts:53-83 | the text pushed for each kind of violation, the two names quoted in the missing-score message |
| Validation.Violations | src/utils/calculations.ts:45-89 | the validator's findings in push order: the four size checks, the count check, then every unrated pair criteria-major; `Validation.ValidIff` states when it is empty and `Validation.ValidateMatrix` returns its messages |
| Validation.ValidateMatrix | src/utils/calculations.ts:45-89 | the errors are the messages of `Violations`: the four size checks, then the count check, then one message per unrated pair, criteria-major |
| Validation.ReportCounts | src/utils/calculations.ts:52-74 | the first five checks push their fixed messages, in source order, exactly when their conditions hold |
| Validation.ReportMissingPairs | src/utils/calculations.ts:77-86 | the nested loops push one message per pair without a record, criteria-major |
| Validation.ReportMissingFor | src/utils/calculations.ts:78-85 | the inner loop pushes one message per alternative without a record for this criterion |
| Validation.MissingForEmptyIff | src/utils/calculations.ts:78-85 | no message for a criterion exactly when every alternative has a record for it |
| Validation.MissingPairsEmptyIff | src/utils/calculations.ts:77-86 | no missing-score message exactly when every pair has a record |
| Validation.ValidIff | src/utils/calculations.ts:45-89 | the validator returns no error exactly when there are 1..10 criteria and 1..3 alternatives, at least one record per pair on count, and every pair has a record |
| Validation.MissingForSound | src/utils/calculations.ts:78-85 | every message of a criterion's row names that criterion and an alternative of the list without a record |
| Validation.MissingForComplete | src/utils/calculations.ts:78-85 | every alternative without a record for the criterion gets its message |
| Validation.MissingPairsSound | src/utils/calculations.ts:77-86 | every missing-score message names a criterion and an alternative of the lists whose pair has no record |
| Validation.MissingPairsComplete | src/utils/calculations.ts:77-86 | every pair without a record gets its message |
| Validation.NoCountViolationInMissingPairs | src/utils/calculations.ts:77-86 | the nested loops never push the count message |
| Validation.CountMessageIff | src/utils/calculations.ts:69-74 | the count message appears exactly when there are fewer records than criteria times alternatives |
| Validation.DroppingAlternativeScores | src/utils/calculations.ts:69-86 | from a fully rated matrix with no surplus record, dropping one alternative's ratings yields the count message and one missing-score message per criterion for that alternative |
| Validation.MissingForOnly | src/utils/calculations.ts:78-85 | when the only unrated alternative of a criterion is the one at k, the criterion's row is exactly that one message |
| Validation.MissingPairsOnly | src/utils/calculations.ts:77-86 | when exactly the pairs of the alternative at k are unrated, the missing-score messages are that alternative's message for each criterion, in criteria order, once each |
| Validation.DroppingAlternativeScoresExactly | src/utils/calculations.ts:50-88 | within the caps, with distinct alternative ids and from a fully rated matrix with no surplus record, dropping one alternative's ratings makes the validator return exactly the count message followed by that alternative's message for each criterion, and nothing else |
| CriteriaStep.CanAdd | src/components/CriteriaStep.tsx:14 | the add guard and the Add button's enabled state (line 62): the trimmed name is non-empty and fewer than 10 criteria exist; `CriteriaStep.AddCriterion` appends exactly when it holds |
| CriteriaStep.AddCriterion | src/components/CriteriaStep.tsx:13-23 | when the name trims to non-empty text and fewer than 10 criteria exist, exactly one criterion with the trimmed name and the form's weight is appended and the form resets to an empty name and weight 10; otherwise nothing at all changes; the cap of 10 is kept |
| CriteriaStep.AddedNameIsTrimmed | src/components/CriteriaStep.tsx:17 | a stored name is non-empty and has no white space at either end |
| CriteriaStep.BlankNameIgnored | src/components/CriteriaStep.tsx:14 | a name made only of white space is never added |
| CriteriaStep.UpdateCriterion | src/components/CriteriaStep.tsx:25-30 | the list keeps its length, order and ids; entries with other ids are unchanged; entries with this id get the new name or weight and keep the other field |
| CriteriaStep.UpdateIdempotent | src/components/CriteriaStep.tsx:25-30 | writing the same field value twice is writing it once |
| CriteriaStep.RenameUndone | src/components/CriteriaStep.tsx:25-30 | with distinct ids, writing back the old name restores the list |
| CriteriaStep.RemoveCriterion | src/components/CriteriaStep.tsx:32-34 | the result holds exactly the entries with another id and is no longer than the input |
| CriteriaStep.RemoveConcat | src/components/CriteriaStep.tsx:33 | `filter` keeps relative order: it distributes over concatenation |
| CriteriaStep.RemoveAbsent | src/components/CriteriaStep.tsx:33 | removing an id nobody carries changes nothing |
| CriteriaStep.AddThenRemove | src/components/CriteriaStep.tsx:13-34 | removing a criterion just added with a fresh id gives back the list |
| CriteriaStep.AddKeepsIdsDistinct | src/components/CriteriaStep.tsx:15-20 | adding with a fresh id keeps the ids distinct |
| CriteriaStep.RemoveKeepsIdsDistinct | src/components/CriteriaStep.tsx:32-34 | removal keeps distinct ids distinct |
| CriteriaStep.TotalWeight | src/components/CriteriaStep.tsx:36 | the `reduce` sum of the weights, starting from 0; its behaviour under add, remove and update is stated by the four lemmas below |
| CriteriaStep.TotalWeightConcat | src/components/CriteriaStep.tsx:36 | the total weight of a concatenation is the sum of the totals |
| CriteriaStep.AddTotalWeight | src/components/CriteriaStep.tsx:13-36 | a successful add raises the total weight by the form's weight, and a refused one leaves it |
| CriteriaStep.RemoveTotalWeight | src/components/CriteriaStep.tsx:32-36 | with distinct ids, removing the criterion at k lowers the total weight by its weight |
| CriteriaStep.UpdateTotalWeight | src/components/CriteriaStep.tsx:25-36 | with distinct ids, setting the weight at k changes the total by the new weight minus the old one; a rename leaves it |
| CriteriaStep.OneWeightChanged | src/components/CriteriaStep.tsx:36 | lists whose weights differ only at k have totals that differ by that change |
| CriteriaStep.SameWeights | src/components/CriteriaStep.tsx:36 | lists with the same weights position by position have the same total |
| CriteriaStep.WeightWarning | src/components/CriteriaStep.tsx:73-110 | the orange hint: shown only inside the non-empty list, and there exactly when the total weight is not 100; `CriteriaStep.ReweightWarning` relates it to an edit |
| CriteriaStep.CanProceed | src/components/CriteriaStep.tsx:119 | the Next button is enabled exactly when at least one criterion exists, whatever the total weight (`CriteriaStep.ReweightWarning`) |
| CriteriaStep.ReweightWarning | src/components/CriteriaStep.tsx:106-119 | with distinct ids, after re-weighting the criterion at k the hint shows exactly when the old total minus its old weight plus the new weight is not 100, and Next stays enabled or disabled as before: the hint is advice only |
| AlternativesStep.CanAdd | src/components/AlternativesStep.tsx:20 | the add guard and the Add button's enabled state (line 57): the trimmed text is non-empty and fewer than 3 alternatives exist; `AlternativesStep.FullListIgnoresAdd` shows the full list refusing |
| AlternativesStep.AddAlternative | src/components/AlternativesStep.tsx:19-28 | when the text trims to non-empty and fewer than 3 alternatives exist, exactly one alternative with the trimmed name is appended and the text is cleared; otherwise nothing at all changes; the cap of 3 is kept |
| AlternativesStep.AddedNameIsTrimmed | src/components/AlternativesStep.tsx:23 | a stored name is non-empty and has no white space at either end |
| AlternativesStep.FullListIgnoresAdd | src/components/AlternativesStep.tsx:20 | from three alternatives on, adding is a no-op whatever the text |
| AlternativesStep.UpdateAlternative | src/components/AlternativesStep.tsx:30-35 | the list keeps its length, order and ids; exactly the entries with this id get the new name |
| AlternativesStep.RenameTwice | src/components/AlternativesStep.tsx:30-35 | a later rename of the same id overrides an earlier one |
| AlternativesStep.RenameUndone | src/components/AlternativesStep.tsx:30-35 | with distinct ids, writing back the old name restores the list |
| AlternativesStep.RemoveAlternative | src/components/AlternativesStep.tsx:37-39 | the result holds exactly the entries with another id and is no longer than the input |
| AlternativesStep.RemoveConcat | src/components/AlternativesStep.tsx:38 | `filter` keeps relative order: it distributes over concatenation |
| AlternativesStep.RemoveAbsent | src/components/AlternativesStep.tsx:38 | removing an id nobody carries changes nothing |
| AlternativesStep.AddThenRemove | src/components/AlternativesStep.tsx:19-39 | removing an alternative just added with a fresh id gives back the list |
| AlternativesStep.RemoveAt | src/components/AlternativesStep.tsx:37-39 | with distinct ids, removing the id at k removes exactly that entry and keeps the others in order |
| AlternativesStep.AddKeepsIdsDistinct | src/components/AlternativesStep.tsx:21-25 | adding with a fresh id keeps the ids distinct |
| AlternativesStep.RemoveKeepsIdsDistinct | src/components/AlternativesStep.tsx:37-39 | removal keeps distinct ids distinct |
| AlternativesStep.CanProceed | src/components/AlternativesStep.tsx:101 | the Next button is enabled exactly when at least one alternative exists; `AlternativesStep.AddEnablesNext` shows a successful add enabling it |
| AlternativesStep.AddEnablesNext | src/components/AlternativesStep.tsx:101 | a successful add always enables Next |
| ScoringStep.UpdateScore | src/components/ScoringStep.tsx:21-36 | if the pair has a record, the first one gets the new value and every other record is unchanged, so the length is kept; otherwise exactly one record for the pair is appended |
| ScoringStep.ScoreOptions | src/components/ScoringStep.tsx:85-90 | the select offers exactly the integers 0 to 5, each once, in increasing order |
| ScoringStep.SameMatches | src/components/ScoringStep.tsx:22-24 | lists matching a pair at the same positions agree on `findIndex` and on `some` |
| ScoringStep.UpdateThenGet | src/components/ScoringStep.tsx:21-43 | after rating a pair it has a record and its select shows the new value |
| ScoringStep.UpdateLeavesOthers | src/components/ScoringStep.tsx:21-43 | rating one pair never changes the presence or the displayed value of another pair |
| ScoringStep.UpdateTwice | src/components/ScoringStep.tsx:21-36 | rating a pair twice keeps the second value, exactly as one rating would |
| ScoringStep.UpdateKeepsPairsUnique | src/components/ScoringStep.tsx:21-36 | the upsert never creates a second record for a pair |
| ScoringStep.UpdateKeepsValuesInRange | src/components/ScoringStep.tsx:85-90 | values written through the 0..5 select keep every stored value in 0..5 |
| ScoringStep.MissingPairsByPresence | src/utils/calculations.ts:77-86 | the missing-score messages depend only on which pairs have records, not on their values |
| ScoringStep.RerateKeepsViolations | src/components/ScoringStep.tsx:21-36 | re-rating a pair that already has a record never changes what the validator reports |
| ScoringStep.CoveringNeedsRecords | src/components/ScoringStep.tsx:45-46 | with distinct ids, rating every pair takes at least criteria times alternatives records |
| ScoringStep.CurrentRecordsBound | src/components/ScoringStep.tsx:45-46 | with distinct criterion ids, at most one record per pair and only records of current pairs, there are at most criteria times alternatives records, and strictly fewer when some pair is unrated |
| ScoringStep.IsComplete | src/components/ScoringStep.tsx:45-46 | the Calculate condition as written: both lists non-empty and as many records as criteria times alternatives; `ScoringStep.CompleteIffReadyWithoutStale` and `ScoringStep.StaleRecordBlocksCalculate` relate it to the validator |
| ScoringStep.ReadyIffValid | src/components/ScoringStep.tsx:124 | within the caps and with distinct ids, the corrected Calculate condition holds exactly when the validator reports nothing |
| ScoringStep.CompleteIffReadyWithoutStale | src/components/ScoringStep.tsx:45-46 | with no stale and no duplicate record, the count test `isComplete` equals the corrected condition |
| ScoringStep.RatingNeverUnblocks | src/components/ScoringStep.tsx:21-46 | once every pair is rated, rating a current pair again never changes `isComplete` |
| ScoringStep.StaleRecordBlocksCalculate | src/components/ScoringStep.tsx:45-46 | rating (c1, a1) and (c2, a1) and then removing c2 with `removeCriterion` leaves both records; the only current pair is rated and the validator accepts, yet `isComplete` is false |
| App.StepNumber | src/App.tsx:107-120 | every step has a number in 1..4; 1 is the first step and 4 the results |
| App.Successor | src/App.tsx:17-24 | the next step's number is one more, except on the results step |
| App.Predecessor | src/App.tsx:39-51 | the previous step's number is one less, except on the first step |
| App.Workflow.constructor | src/App.tsx:11-15 | the workflow starts on the criteria step with all four collections empty |
| App.ScoringOutcome | src/App.tsx:25-35 | with Calculate disabled nothing happens; enabled, the workflow advances exactly when the validator reports nothing, and otherwise returns the validator's messages, never empty |
| App.GatesAgreeWithoutStale | src/components/ScoringStep.tsx:45-46 | with distinct ids and no stale or duplicate record, the button as written and the corrected button give the same outcome |
| App.StaleStateStaysPut | src/components/ScoringStep.tsx:45-46 | in the stale-record state the workflow as written stays on the scoring step, while the corrected one moves on to the results |
| App.SurplusRecordReachesValidator | src/components/ScoringStep.tsx:45-46 | with the stale-record state's two records and criteria c1 and an unrated c3, Calculate as written is enabled and the validator alerts exactly `Missing score for "Speed" and "A"`; the corrected button stays disabled |
| App.Workflow.Calculate | src/App.tsx:25-35 | the scoring case of `handleNext`: its outcome is `ScoringOutcome` of the button's state; on advance the step is Results and the workflow invariant (results equal `Ranked` of the matrix) holds; otherwise nothing changes |
| App.Workflow.Next | src/App.tsx:17-37 | with the corrected Calculate button: the first two steps advance exactly when their list is non-empty; scoring has outcome `ScoringOutcome` of the corrected condition and advances exactly when the validator reports nothing; the results are only written when scoring advances; results is a no-op; the step number never decreases; the collections never change |
| App.Workflow.NextAsWritten | src/App.tsx:17-37 | with the Calculate button as written (`disabled={!isComplete}`): scoring has outcome `ScoringOutcome` of `isComplete` and advances exactly when `isComplete` holds and the validator reports nothing; the other steps as in Next |
| App.Workflow.Back | src/App.tsx:39-51 | one step earlier (none on the first step); the step number never increases; the collections and the results are unchanged |
| App.Workflow.NewMatrix | src/App.tsx:53-59 | whatever the prior state, back to the initial state |
| App.Workflow.UpdateCriteria | src/App.tsx:63-69 | the criteria step's setter replaces the criteria only and keeps the workflow invariant |
| App.Workflow.UpdateAlternatives | src/App.tsx:71-78 | the alternatives step's setter replaces the alternatives only and keeps the workflow invariant |
| App.Workflow.UpdateScores | src/App.tsx:80-89 | the scoring step's setter replaces the ratings only and keeps the workflow invariant |
| App.Workflow.ResultsAreRanking | src/App.tsx:25-35 | on the results step the table has one row per current alternative, ranks 1..N, totals never increasing, and ids a permutation of the current ones |

The workflow invariant is `Workflow.Valid`. Past the first step the
criteria are non-empty, and past the second the alternatives are too. On
the results step the validator accepts the current matrix and the table
is `Ranked` of it. The setters are rendered only inside their own step
(src/App.tsx:61-104), so each setter requires that step. That requirement
is why no collection can change under a results table.

## Left out

- JSX, styling, the progress bar markup and the header: presentation only.
- `alert` (src/App.tsx:33): a rejected Next returns the messages in `Rejected(errors)`.
- ResultsStep.tsx and pdfExport.ts are not part of this model: they consume the computed ranking, as the results view and as a generated PDF file, and change no state of the core.
- `Date.now().toString()` ids: the new id is a parameter of `AddCriterion` and `AddAlternative`, so clock-based id collisions are not modelled; lemmas that need fresh or distinct ids say so in their requires.
- `parseInt(e.target.value) || 0`: the parsed integer is the parameter; text parsing is not modelled.
- React state batching and re-rendering: each handler is one atomic state change.
- JavaScript numbers are doubles: weights, ratings and totals are unbounded integers here, which agrees with the application for the integer values it stores. Precision loss beyond 2^53 is not modelled.
- Array.prototype.sort's algorithm is not visible. It is modelled by a stable insertion sort. `Ranking.StableSortIsUnique` shows that every stable sort with this comparator gives the same result.
- `updateCriterion` with the `id` field: the UI only edits name and weight (src/components/CriteriaStep.tsx:82, 90), so `CriterionChange` has those two cases.
- Calculations.CalculateWeightedScores: sorts a sequence value; the in-place update of the JavaScript array and the aliasing of its items are not modelled.

## Findings

| source | as written | input that shows it | evidently intended | confidence | as-written member | corrected member |
|---|---|---|---|---|---|---|
| src/components/ScoringStep.tsx:45-46 | `isComplete` requires `scores.length === criteria.length * alternatives.length`; the Calculate button (line 124) is disabled otherwise | rate (c1, a1) and (c2, a1), then remove criterion c2: its record stays in `scores` (removal does not touch ratings), so 2 records face 1 × 1 pairs and the button stays disabled, although every visible pair is rated and `validateMatrix` reports nothing; re-rating never helps (`ScoringStep.RatingNeverUnblocks`). Adding an unrated criterion c3 instead makes the count match, so Calculate is enabled with a pair unrated and the validator's alert appears | Calculate enabled when both lists are non-empty and every current pair has a record | high (not executed) | ScoringStep.StaleRecordBlocksCalculate, App.Workflow.NextAsWritten with App.StaleStateStaysPut and App.SurplusRecordReachesValidator | ScoringStep.ReadyToCalculate with ScoringStep.ReadyIffValid, used by App.Workflow.Next |

`ScoringStep.IsComplete` is the condition as written. `ScoringStep.CompleteIffReadyWithoutStale`
shows that it equals the corrected condition exactly when no record is stale
or duplicated, and `App.GatesAgreeWithoutStale` lifts that to the workflow.
Both workflows are modelled: `App.Workflow.NextAsWritten` is gated by
`isComplete`, and `App.Workflow.Next` by the corrected condition. The
invariant `Workflow.Valid` holds for both.

Take a matrix within the caps, with distinct alternative ids, every pair
rated and no surplus record (exactly criteria times alternatives records).
Dropping all ratings of one alternative there yields the count message
(src/utils/calculations.ts:69-74) followed by one missing-score message per
criterion for that alternative, and nothing else
(`Validation.DroppingAlternativeScoresExactly`). So the missing-score
messages never come alone in that case. Editing a
name in a list does not trim it or reject it when empty
(src/components/CriteriaStep.tsx:82, src/components/AlternativesStep.tsx:30-35).
So the "names are non-empty and trimmed" property holds for added entries
only, as `AddedNameIsTrimmed` states.
