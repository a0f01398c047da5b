# Recruiter portal: skill ranking, review filter, saved profiles, publish wizard

A Dafny model of the logic inside the recruiter-facing pages of a student
talent portal. It covers four pages:

- **Search**: the recruiter picks skill chips. The page ranks the fixed
  student roster by three keys:
  - how many of the selected skills a student holds;
  - the mean score over those skills, with a 0.01 tolerance;
  - the mean over all of the student's skills.

  The page also lists the skill catalogue, toggles saved profiles, and
  shows each result's matched skills.
- **Verify profiles**: submissions are filtered by a case-insensitive
  substring query over student name and project title, and by a
  conjunctive skill filter. Each submission gets a status badge.
- **Saved profiles**: the roster students whose ids are in the saved set,
  with the header count, the empty state and the unsave action.
- **Publish**: a three-step modal wizard over a project form. It has a
  duplicate-free list of required skills and three editable text lists.
  It also builds the rows the final step would insert.

Modules, one per file:

| module | file | contents |
|---|---|---|
| `Seqs` | seqs.dfy | `Array.prototype.filter`, order-preserving subsequences, duplicate-freedom |
| `Strings` | strings.dfy | default `sort()` string order, ASCII `toLowerCase`, `includes` |
| `Types` | types.dfy | `Skill`, `Student`, `Submission`, skill-name projection, score sums |
| `Catalog` | catalog.dfy | `Array.from(new Set(names)).sort()` |
| `Selection` | selection.dfy | the skill-chip toggle shared by Search and Verify profiles |
| `Ranking` | ranking.dfy | the keys, the comparator, the insertion sort, `handleSearch` |
| `RankingOrder` | ranking_order.dfy | the ranking on ordinary input: a total preorder, pairwise order, stability, and the uniqueness of the stable sort |
| `Search` | search.dfy | catalogue, saved toggle, `getSkillScore`, the matched-skills panel |
| `SavedProfiles` | saved_profiles.dfy | the saved view, unsave, count and empty state |
| `VerifyProfiles` | verify_profiles.dfy | the submission filter, catalogue and status badge |
| `Publish` | publish.dfy | the wizard state machine, list editing, published rows |
| `Fixtures` | fixtures.dfy | rankings and saved view of the mock roster |

Modelling choices:

- **Exact means.** A mean is an exact `Ratio` of integers, not a float.
  The 0.01 tolerance is decided exactly by cross-multiplication.
  `Ranking.DifferMeaning` proves this agrees with the real-valued
  comparison `|a - b| > 0.01`.
- **`NaN` as `None`.** A student without skills has an overall mean of
  `0 / 0`, which is `NaN` in JavaScript. It is modelled as `None`, and the
  comparator then returns 0, just as `NaN` is neither above nor below
  zero. `Ranking.MatchedHasSkills` shows that every ranked student holds a
  skill, so this case never reaches the sort.
- **Matched count.** `matchedSkillsCount` counts entries of the selection
  list that the student holds, not distinct names. The chip toggle keeps
  the selection duplicate-free (`Selection.Toggle`), so the two agree.
  When a student's skill names are distinct, the count is also the number
  of averaged scores (`Ranking.MatchedCountIsAveragedCount`).
- **The sort.** The model sorts with an insertion sort that scans from the
  back: an element moves left past each trailing element the comparator
  places after it. The engine's `Array.prototype.sort` is stable but may
  use another algorithm (TimSort in current V8).
  - `Ranking.Rank` proves, for every input, a permutation of the
    candidates with every adjacent pair in comparator order.
    `Ranking.RankOrder` adds that matched counts never increase along the
    whole ranking.
  - Ordinary input has integer scores (see "## Left out"), a
    duplicate-free selection of fewer than 100 skills, and distinct skill
    names within each student. On such input
    two students with equal counts average the same number of integer
    scores.
    Their means are then equal or more than 0.01 apart, so the comparator
    is a total preorder on the three keys (`RankingOrder.CmpIsKeyOrder`).
  - There the ranking is ordered across every pair
    (`RankingOrder.RankOrdered`). It keeps tied students in roster order
    (`RankingOrder.RankStable`). It is the only list with both properties
    (`RankingOrder.RankIsTheStableSort`), so any stable sort returns it.
- **Shared state as values.** The saved set is a module-level mutable
  `Set` shared by Search and Saved profiles. Here it is a value passed in
  and returned.
- **The publish wizard.** React state is a `Wizard` value. Each user action
  is an `Event`, applied only when the page offers it in the current state
  (a button shown, an input on the visible step). `Publish.Dispatch` is
  the page's response to an action. Opening the modal resets the step but
  not the form; closing it resets the form but not the step.

## Model

| member | source | states |
|---|---|---|
| Seqs.Filter | src/pages/Search.tsx:52 | the result is an order-preserving subsequence holding exactly the elements satisfying the predicate; it is the whole list when all satisfy it; duplicate-freedom is kept |
| Seqs.FilterCounts | src/pages/Search.tsx:52 | each value occurs in the result as often as in the input when it satisfies the predicate, and not at all otherwise |
| Seqs.RemoveAll | src/pages/Search.tsx:18 | `filter((s) => s !== skill)` removes every copy of the value and keeps every other value, each as often as it occurs, in order; with no duplicates the length drops by exactly one |
| Seqs.RemoveAllAppended | src/pages/Search.tsx:16-22 | removing a value just appended to a list that lacked it gives back the list |
| Seqs.FilterAppend | src/pages/Search.tsx:52 | filtering distributes over concatenation |
| Seqs.FilterFilter | src/pages/VerifyProfiles.tsx:17-30 | filtering by one test and then another equals filtering once by their conjunction |
| Seqs.FilterAbsorbs | src/pages/Search.tsx:52 | a first filter loses nothing a second filter would keep, when the second test implies the first |
| Seqs.FilterNarrows | src/pages/VerifyProfiles.tsx:17-30 | a stronger predicate keeps a subsequence of what a weaker one keeps |
| Seqs.NoDupCard | src/pages/Search.tsx:12-14 | a duplicate-free list has as many elements as its element set |
| Strings.Less | src/pages/Search.tsx:14 | the default `sort()` order: the first differing character decides, and a proper prefix comes first; its meaning as a strict total order is stated by `Strings.LessIrreflexive`, `Strings.LessTransitive`, `Strings.LessTotal` and `Strings.LessAsymmetric` |
| Strings.LessIrreflexive | src/pages/Search.tsx:14 | no string sorts before itself under `sort()` |
| Strings.LessTransitive | src/pages/Search.tsx:14 | the string order is transitive |
| Strings.LessTotal | src/pages/Search.tsx:14 | any two distinct strings are ordered one way or the other |
| Strings.LessAsymmetric | src/pages/Search.tsx:14 | two strings never sort before each other |
| Strings.LowerChar | src/pages/VerifyProfiles.tsx:20-21 | a capital maps to its lower-case letter, 32 code points up; every other character is unchanged |
| Strings.Lower | src/pages/VerifyProfiles.tsx:20-21 | `toLowerCase` keeps the length, folds each character and leaves no ASCII capital |
| Strings.Includes | src/pages/VerifyProfiles.tsx:20-21 | `hay.includes(needle)`; meaning stated by `Strings.IncludesAt` and `Strings.IncludesEmpty` |
| Strings.IncludesAt | src/pages/VerifyProfiles.tsx:20-21 | `hay.includes(needle)` holds exactly when `needle` starts at some position of `hay` |
| Strings.IncludesEmpty | src/pages/VerifyProfiles.tsx:19-21 | every string includes the empty string |
| Types.SkillNames | src/pages/Search.tsx:31 | `skills.map((s) => s.name)` keeps the length and takes each name in place |
| Types.RosterSkillNames | src/pages/Search.tsx:13 | the flattened names are exactly the names of some roster student's skills |
| Types.ScoreSumBounds | src/pages/Search.tsx:38-39 | a sum of n scores within [lo, hi] lies within [n·lo, n·hi] |
| Catalog.StrictlyAscendingNoDup | src/pages/Search.tsx:12-14 | a strictly ascending catalogue holds no duplicates |
| Catalog.InsertSorted | src/pages/Search.tsx:12-14 | inserting into an ascending list keeps it ascending and adds exactly the new name |
| Catalog.SortedDistinct | src/pages/Search.tsx:12-14 | the catalogue is strictly ascending and holds exactly the names of the input |
| Catalog.HeadLeast | src/pages/Search.tsx:14 | the head of an ascending list precedes all other entries and the tail holds the rest |
| Catalog.AscendingUnique | src/pages/Search.tsx:12-14 | two ascending lists with the same elements are equal, so the catalogue does not depend on collection order |
| Catalog.CatalogCharacterised | src/pages/Search.tsx:12-14 | the catalogue is the unique ascending listing of the distinct names |
| Selection.Toggle | src/pages/Search.tsx:16-22 | a click flips the clicked skill's membership and no other; a new skill is appended at the end; a removal keeps the order; duplicate-freedom is kept and the length moves by one |
| Selection.ToggleTwiceRestores | src/pages/VerifyProfiles.tsx:32-38 | clicking an unselected chip twice restores the exact selection list |
| Ranking.CompareRatioMeaning | src/pages/Search.tsx:59 | the comparison of two exact means has the sign of their real difference |
| Ranking.DifferMeaning | src/pages/Search.tsx:58 | the exact tolerance test holds exactly when the real means differ by more than 0.01 |
| Ranking.MatchedSkills | src/pages/Search.tsx:31-32 | the matched skills are the selected names the student holds, in selection order |
| Ranking.MatchedCount | src/pages/Search.tsx:32-33 | `matchedSkillsCount`, the length of the matched skills; meaning stated by `Ranking.MatchedSkills` and `Ranking.MatchedCountIsAveragedCount` |
| Ranking.SearchedSkills | src/pages/Search.tsx:35-36 | the searched skills are the student's skills whose name is selected, in the student's order |
| Ranking.AvgSearched | src/pages/Search.tsx:35-40 | `avgSearchedScore`, the exact mean of the searched skills' scores, 0 when there are none; meaning stated by `Ranking.AvgSearchedWithin` and `RankingOrder.AveragedCount` |
| Ranking.AllAvg | src/pages/Search.tsx:42 | `allSkillsAvg`, the exact mean of all scores, undefined (`NaN`) for a student without skills; meaning stated by `Ranking.MatchedHasSkills` |
| Ranking.Cmp | src/pages/Search.tsx:54-62 | the `.sort` comparator, returning -1, 0 or 1 by sign; meaning stated by `Ranking.CmpMeaning`, `Ranking.CmpAntisymmetric` and `RankingOrder.CmpIsKeyOrder` |
| Ranking.CmpAntisymmetric | src/pages/Search.tsx:54-62 | swapping the students negates the comparator |
| Ranking.CmpMeaning | src/pages/Search.tsx:54-62 | the comparator lets `a` precede `b` exactly when `a` has more matches, or equal matches and a mean more than 0.01 higher, or means within 0.01 and an overall mean at least as high (or one undefined) |
| Ranking.CmpCounts | src/pages/Search.tsx:55-57 | the comparator never puts a student with fewer matches first |
| Ranking.InsertRanked | src/pages/Search.tsx:54 | one insertion step adds exactly the element to the multiset and keeps adjacent comparator order |
| Ranking.RankedPrefix | src/pages/Search.tsx:54 | dropping the last element keeps adjacent comparator order |
| Ranking.RankedSnoc | src/pages/Search.tsx:54 | appending an element the comparator lets follow the last one keeps adjacent order |
| Ranking.SortRanked | src/pages/Search.tsx:54-62 | the sort returns a permutation of its input in adjacent comparator order |
| Ranking.Candidates | src/pages/Search.tsx:52 | the students with a positive matched count; meaning stated by `Ranking.CandidatesMatch`, `Ranking.CandidatesKeep` and `Ranking.CandidatesSkip` |
| Ranking.CandidatesMatch | src/pages/Search.tsx:52 | the candidates keep roster order and are exactly the students matching a selected skill |
| Ranking.CandidatesKeep | src/pages/Search.tsx:52 | a matching first student heads the candidates |
| Ranking.CandidatesSkip | src/pages/Search.tsx:52 | a non-matching first student is dropped |
| Ranking.MatchedHasSkills | src/pages/Search.tsx:42 | a matching student has a skill, so the overall mean is defined |
| Ranking.Rank | src/pages/Search.tsx:24-65 | an empty selection ranks nobody; otherwise the result is a permutation of the matching students, holds a roster student exactly when it matches a selected skill, and is in adjacent comparator order |
| Ranking.RankedCountsNonIncreasing | src/pages/Search.tsx:55-57 | in a ranked list no later student has more matches than an earlier one |
| Ranking.RankOrder | src/pages/Search.tsx:54-62 | matched counts never increase along the ranking, and every adjacent pair satisfies the three keys on the real means |
| Ranking.MoreMatchesRankHigher | src/pages/Search.tsx:55-57 | a student with more matches stands above one with fewer, whatever the scores |
| Ranking.SearchedCount | src/pages/Search.tsx:35-37 | with distinct skill names, the searched skills number as many as the selected names the student holds |
| Ranking.SearchedCons | src/pages/Search.tsx:35-36 | the searched-skill count is the head's contribution plus the tail's |
| Ranking.InterAddOne | src/pages/Search.tsx:35-36 | a fresh element grows an intersection by one exactly when the other set holds it |
| Ranking.SearchedNamesAreMatched | src/pages/Search.tsx:31-37 | the names of the searched skills are exactly the matched skills |
| Ranking.MatchedCountIsAveragedCount | src/pages/Search.tsx:31-40 | with a duplicate-free selection and distinct skill names, `matchedSkillsCount` is the number of averaged scores and they are the matched skills' scores |
| Ranking.MeanBounds | src/pages/Search.tsx:38-40 | a mean of n scores within [lo, hi] lies within [lo, hi] |
| Ranking.AvgSearchedWithin | src/pages/Search.tsx:38-40 | a matching student's mean over the searched skills lies between the lowest and highest possible score |
| RankingOrder.SameCountDiffer | src/pages/Search.tsx:58 | two means over the same number n < 100 of scores are more than 0.01 apart exactly when their sums differ |
| RankingOrder.SameCountValue | src/pages/Search.tsx:58-59 | two means over the same number of scores are equal exactly when their sums are |
| RankingOrder.AveragedCount | src/pages/Search.tsx:31-40 | on ordinary input a candidate's mean averages exactly its matched count of scores, fewer than 100 |
| RankingOrder.ToleranceIsInequality | src/pages/Search.tsx:58 | on ordinary input, between candidates with equal counts the 0.01 tolerance test is inequality of the means |
| RankingOrder.KeyPrecedesTotal | src/pages/Search.tsx:54-62 | the exact key order relates every pair one way or the other |
| RankingOrder.KeyPrecedesTransitive | src/pages/Search.tsx:54-62 | the exact key order is transitive |
| RankingOrder.CmpIsKeyOrder | src/pages/Search.tsx:54-62 | on ordinary candidates the comparator lets `a` stand first exactly when `a` precedes `b` on count, then mean, then overall mean |
| RankingOrder.CmpReflexive | src/pages/Search.tsx:54-62 | every student is tied with itself |
| RankingOrder.CmpTransitive | src/pages/Search.tsx:54-62 | on ordinary candidates "may stand first" is transitive |
| RankingOrder.TiedTransitive | src/pages/Search.tsx:54-62 | on ordinary candidates ties are transitive |
| RankingOrder.AfterNotTied | src/pages/Search.tsx:54-62 | a student placed after `x` is tied with nothing `x` is tied with |
| RankingOrder.InsertTies | src/pages/Search.tsx:54 | an insertion step puts the new student after every student tied with it |
| RankingOrder.SortTies | src/pages/Search.tsx:54 | the sort keeps every tie class in input order |
| RankingOrder.ChainOrdered | src/pages/Search.tsx:54 | adjacent order under a reflexive, transitive relation extends to every pair |
| RankingOrder.RankedIsSorted | src/pages/Search.tsx:54-62 | on ordinary candidates adjacent comparator order extends to every pair |
| RankingOrder.TiesOfCandidates | src/pages/Search.tsx:52 | dropping the non-matching students keeps each tie class of a candidate |
| RankingOrder.CandidatesOrdinary | src/pages/Search.tsx:52 | every candidate of a roster with distinct skill names per student is ordinary |
| RankingOrder.RankOrdered | src/pages/Search.tsx:24-65 | on ordinary input every earlier student precedes every later one on the three keys |
| RankingOrder.RankStable | src/pages/Search.tsx:24-65 | on ordinary input students tied with each other keep their roster order |
| RankingOrder.HeadsTied | src/pages/Search.tsx:54 | the heads of two sorted permutations of each other are tied |
| RankingOrder.TiedHeadsEqual | src/pages/Search.tsx:54 | tied heads of lists with the same tie classes are the same student |
| RankingOrder.StableSortUnique | src/pages/Search.tsx:54-62 | two sorted permutations of the same ordinary candidates with every tie class in the same order are equal |
| RankingOrder.RankIsTheStableSort | src/pages/Search.tsx:52-64 | on ordinary input every permutation of the candidates that is sorted and keeps tie classes in roster order is the ranking, so any stable sort returns it |
| Search.AllSkills | src/pages/Search.tsx:12-14 | the chips are strictly ascending, distinct, and exactly the names some roster student holds |
| Search.ToggleSaved | src/pages/Search.tsx:67-73 | saving flips the clicked id's membership and no other |
| Search.ToggleSavedTwice | src/pages/Search.tsx:67-73 | saving and unsaving restores the saved set |
| Search.SkillScore | src/pages/Search.tsx:75-77 | the score of the first skill with that name, 0 when there is none |
| Search.PanelSkills | src/pages/Search.tsx:152-160 | the panel's skill names, one per entry, in place |
| Search.MatchedPanel | src/pages/Search.tsx:152-160 | the panel lists, in selection order, the selected skills with a positive score, each with that score |
| Search.PanelIsMatched | src/pages/Search.tsx:152-160 | when all scores are positive, the panel lists exactly the matched skills in selection order |
| Search.FirstScorePositive | src/pages/Search.tsx:75-77 | with positive scores, a held skill's looked-up score is positive |
| SavedProfiles.SavedView | src/pages/SavedProfiles.tsx:10 | the page lists, in roster order, exactly the roster students whose id is saved |
| SavedProfiles.Unsave | src/pages/SavedProfiles.tsx:12-16 | unsaving removes that id and no other, and shrinks the set by one when the id was saved |
| SavedProfiles.SavedViewCons | src/pages/SavedProfiles.tsx:10 | the view keeps the first student exactly when saved, then views the rest |
| SavedProfiles.UnsaveRemovesFromView | src/pages/SavedProfiles.tsx:10-14 | the set right after the `delete`, which is what the page evidently intends to show, is the previous list without that student, the others unchanged and in order |
| SavedProfiles.UnsaveAsWritten | src/pages/SavedProfiles.tsx:12-16 | `handleUnsave` as written: the `delete` followed by the reload that restores the set of `src/mockData.ts:298`; meaning stated by `SavedProfiles.UnsaveAsWrittenKeepsStudent` and `SavedProfiles.UnsaveAsWrittenForgetsSaves` |
| SavedProfiles.UnsaveAsWrittenKeepsStudent | src/pages/SavedProfiles.tsx:12-16 | with the reload that follows the `delete`, an initially saved student is still listed and the page shows the initial saved view |
| SavedProfiles.UnsaveAsWrittenForgetsSaves | src/pages/SavedProfiles.tsx:12-16 | with the reload, a student saved since page load disappears although a different student was unsaved |
| SavedProfiles.WithoutId | src/pages/SavedProfiles.tsx:10-16 | the list without the students carrying an id, in order |
| SavedProfiles.SavedCount | src/pages/SavedProfiles.tsx:23-27 | the header count is at most the roster size and is 0 exactly when no roster student is saved |
| SavedProfiles.ShowsEmptyState | src/pages/SavedProfiles.tsx:27-33 | the `saved.length === 0` branch: the empty state shows exactly when no roster student is saved; meaning stated by `SavedProfiles.SavedCount` and `SavedProfiles.SavedFromSearchAppears` |
| SavedProfiles.SavedFromSearchAppears | src/pages/SavedProfiles.tsx:10 | a roster student saved from the search page appears here and the empty state goes away |
| VerifyProfiles.Submitters | src/pages/VerifyProfiles.tsx:14 | `sub.student` of every submission, in place |
| VerifyProfiles.AllSkills | src/pages/VerifyProfiles.tsx:13-15 | the filter chips are strictly ascending, distinct, and exactly the names some submitting student holds |
| VerifyProfiles.MatchesSearch | src/pages/VerifyProfiles.tsx:18-21 | `matchesSearch`; meaning stated by `VerifyProfiles.SearchIsSubstring` and `VerifyProfiles.SearchIgnoresQueryCase` |
| VerifyProfiles.MatchesSkills | src/pages/VerifyProfiles.tsx:23-27 | `matchesSkills`, every selected skill held by the student; meaning stated by `VerifyProfiles.FilteredSubmissions` and `VerifyProfiles.MoreSkillsNarrow` |
| VerifyProfiles.FilteredSubmissions | src/pages/VerifyProfiles.tsx:17-30 | the result keeps submission order and holds exactly those matching both the text query and every selected skill; an empty query and selection keep all |
| VerifyProfiles.SearchIsSubstring | src/pages/VerifyProfiles.tsx:18-21 | the text test holds exactly when the lowered query occurs in the lowered name or title; the empty-query shortcut changes nothing |
| VerifyProfiles.SearchIgnoresQueryCase | src/pages/VerifyProfiles.tsx:18-21 | lowering the query first does not change the text test |
| VerifyProfiles.FiltersCompose | src/pages/VerifyProfiles.tsx:17-30 | narrowing by the text query and by the chips, in either order, yields exactly the filtered list |
| VerifyProfiles.MoreSkillsNarrow | src/pages/VerifyProfiles.tsx:23-27 | selecting one more skill leaves a subsequence of the previous result |
| VerifyProfiles.StatusColor | src/pages/VerifyProfiles.tsx:40-49 | approved is success, rejected is error, every other status is warning |
| VerifyProfiles.StatusIcon | src/pages/VerifyProfiles.tsx:51-60 | approved has the check icon, rejected the cross, every other status the clock |
| VerifyProfiles.StatusBadgeConsistent | src/pages/VerifyProfiles.tsx:40-60 | for each status the colour and the icon agree, and exactly pending shows the warning colour |
| Publish.WithItems | src/pages/Publish.tsx:64 | `{ ...formData, [field]: items }` sets that list and leaves the rest of the form alone |
| Publish.OpenModal | src/pages/Publish.tsx:22-25 | opening shows the modal on step 1 and keeps the form |
| Publish.CloseModal | src/pages/Publish.tsx:27-38 | closing hides the modal and resets the form to the initial one, keeping the step |
| Publish.Next | src/pages/Publish.tsx:40-42 | Next advances below step 3, stays at 3, keeps the step in 1..3 and changes nothing else |
| Publish.Previous | src/pages/Publish.tsx:44-46 | Previous goes back above step 1, stays at 1, keeps the step in 1..3 and changes nothing else |
| Publish.AddSkill | src/pages/Publish.tsx:49-53 | an empty or present skill changes nothing; any other is appended; only the skills change; distinctness and non-emptiness are kept |
| Publish.RemoveSkill | src/pages/Publish.tsx:55-60 | the skill is gone, every other skill stays in order, and only the skills change |
| Publish.ClickSkillChip | src/pages/Publish.tsx:291-293 | a click flips a non-empty skill's membership and no other, keeping the skills distinct |
| Publish.AddArrayItem | src/pages/Publish.tsx:63-65 | one empty entry is appended to the chosen list; the old entries and the rest of the form are unchanged |
| Publish.UpdateArrayItem | src/pages/Publish.tsx:67-75 | the entry at the index takes the value and everything else stays |
| Publish.RemoveAt | src/pages/Publish.tsx:78 | `filter((_, i) => i !== index)` drops exactly the entry at an in-range index and nothing otherwise |
| Publish.RemoveArrayItem | src/pages/Publish.tsx:77-79 | the chosen list loses the entry at the index and the rest of the form is unchanged |
| Publish.NonEmptyEntries | src/pages/Publish.tsx:172 | `filter(Boolean)` keeps the non-empty entries in order, each as often as it occurs, and drops every empty one |
| Publish.BuildRows | src/pages/Publish.tsx:171-172 | one row per non-empty entry: row i carries the new project's id and the i-th non-empty entry, so none is empty and order and repeats are kept |
| Publish.RowsOf | src/pages/Publish.tsx:172 | the `map` to rows: one row per text, in place |
| Publish.Offered | src/pages/Publish.tsx:217-421 | an action is applied only when its control is rendered in the current state: the Publish New Project button always, the modal only while open, each input on its own step, Next below step 3, Previous above step 1, a remove button only while its list has more than one entry; meaning stated by `Publish.DispatchKeepsInv` and `Publish.ReachableInv` |
| Publish.Dispatch | src/pages/Publish.tsx:22-79 | the page's response to one user action through the handlers, an action not offered leaving the state alone; meaning stated by `Publish.DispatchKeepsInv` and the per-handler rows above |
| Publish.InitialInv | src/pages/Publish.tsx:8-18 | the initial page state satisfies the invariant |
| Publish.ListsStayNonEmpty | src/pages/Publish.tsx:314 | changing one list to a non-empty one leaves no list empty |
| Publish.DispatchKeepsInv | src/pages/Publish.tsx:22-79 | every offered action keeps the step in 1..3, the skills distinct and non-empty, and every text list non-empty |
| Publish.RunKeepsInv | src/pages/Publish.tsx:217-420 | any run of actions from a state satisfying the invariant ends in one |
| Publish.ReachableInv | src/pages/Publish.tsx:8-18 | every page state reachable from the start satisfies the invariant |
| Publish.PublishedSkillsUnfiltered | src/pages/Publish.tsx:125 | in a reachable state the `filter(Boolean)` before the skill lookups drops nothing |
| Publish.AddThenRemoveRestores | src/pages/Publish.tsx:63-79 | removing the entry just added restores the form |
| Publish.ClickTwiceRestores | src/pages/Publish.tsx:291-293 | clicking a chip twice restores the form when it lacked that skill |
| Publish.AvailableSkillsDistinct | src/pages/Publish.tsx:82-95 | the twelve offered chips are distinct and non-empty |
| Fixtures.ReactRanking | src/mockData.ts:12-115 | with React selected, the mock roster ranks Emily (94), Alex (92), Sophie (87) |
| Fixtures.SixRanking | src/pages/Search.tsx:24-65 | any six-student roster with React holders in the mock positions ranks them by React score alone, whatever their other skills |
| Fixtures.BothSkillsRanking | src/pages/Search.tsx:58-59 | with React and SQL selected, a mean of 87.5 ranks above 80 |
| Fixtures.ReactOnlyRanking | src/pages/Search.tsx:58-59 | with React alone, React 90 ranks above React 80 |
| Fixtures.InitialSavedView | src/mockData.ts:298 | the initially saved ids show Maria and Emily, in roster order, with count 2 |
| Fixtures.UnsaveMaria | src/pages/SavedProfiles.tsx:12-16 | unsaving Maria on a fresh page still lists her after the reload, while the set after the `delete` alone would not |

## Left out

- The Supabase writes of `handlePublish` (`src/pages/Publish.tsx:97-205`): authentication, the project insert, skill lookup and insert with retries, and the child-row inserts are network I/O. Only the rows the form would produce are modelled (`Publish.BuildRows`).
- Navigation after publishing and `e.stopPropagation()` are browser effects with no state of their own in the model. The `window.location.reload()` after unsaving is modelled as restoring the initial saved set, since reloading re-evaluates `src/mockData.ts:298` (`SavedProfiles.Reload`); the rest of the reload, such as re-rendering, is left out.
- The other pages and files (home dashboard, login, profile, layout, router, authentication context) are outside the core.
- The mock data is modelled only where the fixtures use it: the six students' ids, names and skills, and the initial saved set. Projects and submissions are not modelled.
- Scores are integers (`Skill.score` is `int`), where the source's type is `number`. Every score in `src/mockData.ts` is a whole number. With fractional scores the ordinary-input results of `RankingOrder` would not hold: three students holding only the selected skill, scored 80, 80.006 and 80.012, give two neighbouring pairs within 0.01 that fall through to the overall mean, while 80 and 80.012 are decided by the searched mean, so the comparator is not transitive.
- Floating-point rounding: means are exact rationals. When both students average the same number n < 100 of integer scores, which ordinary input gives (`RankingOrder.AveragedCount`), distinct means are at least 1/n apart, well beyond rounding error, and equal sums give identical floats, so the float test and the exact test agree. Outside that case they can disagree: two means of 100 scores with sums 8001 and 8000 are exactly 0.01 apart, which the exact test treats as within tolerance while the float difference of 80.01 and 80 can come out above 0.01; with equal matched counts but a repeated skill name, a mean of 4 scores summing to 321 (80.25) against one of 25 scores summing to 2006 (80.24) sits on the same boundary.
- Ranking.Rank: on input that is not ordinary (a student with two skills of the same name, or a selection of 100 or more skills) only the permutation, adjacent comparator order and count order are proved. There the 0.01 tolerance can make the comparator non-transitive (means m, m + 0.01 and m + 0.02: each adjacent pair falls through to the next key while the outer pair does not), and the engine's sort (TimSort in current V8) and this insertion sort may return different lists.
- Strings.Less: compares Unicode scalar values, where JavaScript compares UTF-16 code units. The two differ only for characters outside the Basic Multilingual Plane.
- Strings.Lower, Strings.LowerChar: fold ASCII letters only, where `toLowerCase` applies full Unicode case mapping.
- Publish.UpdateArrayItem: requires an in-range index, which is every index the page passes. An out-of-range JavaScript assignment would create holes.
- The "Clear All" button (`src/pages/Search.tsx:108`) sets the selection to the empty list. That is a plain assignment with no separate member.
- Result headings, the plural suffixes of counts, the rank badge `#{index + 1}`, avatar fallbacks, the detail modals and the submission date display are presentation only.
- The `showFilters` panel toggle of the review page is presentation only.

## Findings

| source | as written | input that shows it | evidently intended | confidence | as-written member | corrected member |
|---|---|---|---|---|---|---|
| src/pages/SavedProfiles.tsx:12-16 | `handleUnsave` deletes the id from the module-level set and then calls `window.location.reload()`, which re-evaluates `src/mockData.ts:298` and restores the initial set `{student-2, student-4}` | on a fresh page, unsaving Maria (`student-2`) lists her again after the reload; any profile saved on the search page is also lost | the page re-renders without the unsaved student and keeps every other saved profile | high, not executed | SavedProfiles.UnsaveAsWrittenKeepsStudent | SavedProfiles.UnsaveRemovesFromView |
