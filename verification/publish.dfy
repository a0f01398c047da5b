/**
 The project-publish wizard: a three-step modal over a form holding a
 title, a description, a difficulty, a duplicate-free list of required
 skills and three editable text lists (test cases, constraints, evaluation
 criteria). The database writes of the final step are not modelled; the
 rows they would insert are.
 */
module Publish {
  import opened Seqs

  datatype Difficulty = Easy | Medium | Hard

  /** The three editable text lists. */
  datatype Field = TestCases | Constraints | EvaluationCriteria

  datatype Form = Form(
    title: string,
    description: string,
    difficulty: Difficulty,
    requiredSkills: seq<string>,
    testCases: seq<string>,
    constraints: seq<string>,
    evaluationCriteria: seq<string>)

  /** The page state: whether the modal shows, the wizard step, the form. */
  datatype Wizard = Wizard(showModal: bool, step: int, form: Form)

  /** The form the page starts with. */
  function InitialForm(): Form
  {
    Form("", "", Medium, [], [""], [""], [""])
  }

  function InitialWizard(): Wizard
  {
    Wizard(false, 1, InitialForm())
  }

  /** The chips offered on step 2. */
  const AvailableSkills: seq<string> := [
    "React", "TypeScript", "Node.js", "Python", "Java", "Spring Boot",
    "Docker", "Kubernetes", "SQL", "MongoDB", "Machine Learning", "CSS"]

  /** `formData[field]`. */
  function Items(f: Form, field: Field): seq<string>
  {
    match field
    case TestCases => f.testCases
    case Constraints => f.constraints
    case EvaluationCriteria => f.evaluationCriteria
  }

  /** `{ ...formData, [field]: items }`. */
  function WithItems(f: Form, field: Field, items: seq<string>): (r: Form)
    ensures Items(r, field) == items
    ensures SameExcept(r, f, field)
  {
    match field
    case TestCases => f.(testCases := items)
    case Constraints => f.(constraints := items)
    case EvaluationCriteria => f.(evaluationCriteria := items)
  }

  /** `a` and `b` agree on everything but the list `field`. */
  predicate SameExcept(a: Form, b: Form, field: Field)
  {
    && a.title == b.title
    && a.description == b.description
    && a.difficulty == b.difficulty
    && a.requiredSkills == b.requiredSkills
    && forall other :: other != field ==> Items(a, other) == Items(b, other)
  }

  /** `handleOpenModal`: the modal shows, on step 1, with the form as it was. */
  function OpenModal(w: Wizard): (r: Wizard)
    ensures r.showModal && r.step == 1 && r.form == w.form
  {
    Wizard(true, 1, w.form)
  }

  /** `handleCloseModal`: the modal hides and the form is reset; the step is
      left as it was. */
  function CloseModal(w: Wizard): (r: Wizard)
    ensures !r.showModal && r.step == w.step
    ensures r.form == InitialForm()
  {
    Wizard(false, w.step, Form(
      title := "",
      description := "",
      difficulty := Medium,
      requiredSkills := [],
      testCases := [""],
      constraints := [""],
      evaluationCriteria := [""]))
  }

  /** `handleNext`. */
  function Next(w: Wizard): (r: Wizard)
    ensures 1 <= w.step <= 3 ==> 1 <= r.step <= 3
    ensures w.step < 3 ==> r.step == w.step + 1
    ensures w.step >= 3 ==> r.step == w.step
    ensures r.showModal == w.showModal && r.form == w.form
  {
    if w.step < 3 then w.(step := w.step + 1) else w
  }

  /** `handlePrevious`. */
  function Previous(w: Wizard): (r: Wizard)
    ensures 1 <= w.step <= 3 ==> 1 <= r.step <= 3
    ensures w.step > 1 ==> r.step == w.step - 1
    ensures w.step <= 1 ==> r.step == w.step
    ensures r.showModal == w.showModal && r.form == w.form
  {
    if w.step > 1 then w.(step := w.step - 1) else w
  }

  /** `addSkill`: an empty or already required skill changes nothing,
      any other is appended. */
  function AddSkill(f: Form, skill: string): (r: Form)
    ensures |skill| == 0 || skill in f.requiredSkills ==> r == f
    ensures |skill| > 0 && skill !in f.requiredSkills ==> r.requiredSkills == f.requiredSkills + [skill]
    ensures r == f.(requiredSkills := r.requiredSkills)
    ensures NoDup(f.requiredSkills) ==> NoDup(r.requiredSkills)
    ensures "" !in f.requiredSkills ==> "" !in r.requiredSkills
  {
    if |skill| > 0 && skill !in f.requiredSkills then
      f.(requiredSkills := f.requiredSkills + [skill])
    else f
  }

  /** `removeSkill`: every occurrence goes, the other skills keep their order. */
  function RemoveSkill(f: Form, skill: string): (r: Form)
    ensures skill !in r.requiredSkills
    ensures forall k :: k != skill ==> (k in r.requiredSkills <==> k in f.requiredSkills)
    ensures Subseq(r.requiredSkills, f.requiredSkills)
    ensures r == f.(requiredSkills := r.requiredSkills)
    ensures NoDup(f.requiredSkills) ==> NoDup(r.requiredSkills)
  {
    f.(requiredSkills := RemoveAll(f.requiredSkills, skill))
  }

  /** A skill chip click: remove when required, add otherwise. For a
      non-empty skill this flips its membership and no other. */
  function ClickSkillChip(f: Form, skill: string): (r: Form)
    ensures |skill| > 0 ==> (skill in r.requiredSkills <==> skill !in f.requiredSkills)
    ensures forall k :: k != skill ==> (k in r.requiredSkills <==> k in f.requiredSkills)
    ensures r == f.(requiredSkills := r.requiredSkills)
    ensures NoDup(f.requiredSkills) ==> NoDup(r.requiredSkills)
  {
    if skill in f.requiredSkills then RemoveSkill(f, skill) else AddSkill(f, skill)
  }

  /** `addArrayItem`: one empty entry appended to the chosen list. */
  function AddArrayItem(f: Form, field: Field): (r: Form)
    ensures |Items(r, field)| == |Items(f, field)| + 1
    ensures Items(r, field)[..|Items(f, field)|] == Items(f, field)
    ensures Items(r, field)[|Items(f, field)|] == ""
    ensures SameExcept(r, f, field)
  {
    WithItems(f, field, Items(f, field) + [""])
  }

  /** `updateArrayItem` at a position of the list. */
  function UpdateArrayItem(f: Form, field: Field, index: int, value: string): (r: Form)
    requires 0 <= index < |Items(f, field)|
    ensures |Items(r, field)| == |Items(f, field)|
    ensures Items(r, field)[index] == value
    ensures forall j :: 0 <= j < |Items(f, field)| && j != index ==> Items(r, field)[j] == Items(f, field)[j]
    ensures SameExcept(r, f, field)
  {
    WithItems(f, field, Items(f, field)[index := value])
  }

  /** `items.filter((_, i) => i !== index)`: the entry at `index` dropped,
      nothing dropped when `index` is out of range. */
  function RemoveAt(s: seq<string>, index: int): (r: seq<string>)
    ensures 0 <= index < |s| ==> r == s[..index] + s[index + 1..]
    ensures !(0 <= index < |s|) ==> r == s
    decreases |s|
  {
    if |s| == 0 then []
    else
      var rest := RemoveAt(s[1..], index - 1);
      assert 0 < index < |s| ==> s[1..][..index - 1] + s[1..][index..] == s[1..index] + s[index + 1..];
      (if index == 0 then [] else [s[0]]) + rest
  }

  /** `removeArrayItem`. */
  function RemoveArrayItem(f: Form, field: Field, index: int): (r: Form)
    ensures 0 <= index < |Items(f, field)| ==> |Items(r, field)| == |Items(f, field)| - 1
    ensures 0 <= index < |Items(f, field)| ==>
      && Items(r, field)[..index] == Items(f, field)[..index]
      && Items(r, field)[index..] == Items(f, field)[index + 1..]
    ensures !(0 <= index < |Items(f, field)|) ==> r == f
    ensures SameExcept(r, f, field)
  {
    WithItems(f, field, RemoveAt(Items(f, field), index))
  }

  /** `items.filter(Boolean)`: the non-empty entries, in order. */
  function NonEmptyEntries(items: seq<string>): (r: seq<string>)
    ensures Subseq(r, items)
    ensures forall x :: x in r <==> x in items && x != ""
    ensures "" !in items ==> r == items
    ensures forall x :: multiset(r)[x] == if x != "" then multiset(items)[x] else 0
  {
    var keep := (x: string) => x != "";
    FilterCounts(items, keep);
    Filter(items, keep)
  }

  /** A row inserted for the new project. */
  datatype Row = Row(projectId: string, text: string)

  /** `items.filter(Boolean).map((text) => ({ project_id, text }))`. */
  function BuildRows(projectId: string, items: seq<string>): (r: seq<Row>)
    ensures |r| == |NonEmptyEntries(items)|
    ensures forall i :: 0 <= i < |r| ==> r[i].projectId == projectId && r[i].text != ""
    ensures forall x :: x in items && x != "" ==> exists i :: 0 <= i < |r| && r[i].text == x
    ensures forall i :: 0 <= i < |r| ==> r[i] == Row(projectId, NonEmptyEntries(items)[i])
  {
    var texts := NonEmptyEntries(items);
    assert forall i :: 0 <= i < |texts| ==> texts[i] in texts;
    RowsOf(projectId, texts)
  }

  function RowsOf(projectId: string, texts: seq<string>): (r: seq<Row>)
    ensures |r| == |texts|
    ensures forall i :: 0 <= i < |r| ==> r[i] == Row(projectId, texts[i])
  {
    if |texts| == 0 then [] else [Row(projectId, texts[0])] + RowsOf(projectId, texts[1..])
  }

  /** What the open modal lets the user do: the step-1 inputs, the step-2
      chips and lists, the step-3 list, Next below step 3, Previous above
      step 1, a remove button only while a list has more than one entry.
      The Publish New Project button that opens the modal is always on
      the page. */
  datatype Event =
    | Open
    | Close
    | GoNext
    | GoPrevious
    | EditTitle(title: string)
    | EditDescription(description: string)
    | PickDifficulty(level: Difficulty)
    | ClickChip(skill: string)
    | AddItem(field: Field)
    | EditItem(field: Field, index: int, value: string)
    | RemoveItem(field: Field, index: int)

  /** The step on which a list is edited. */
  function FieldStep(field: Field): int
  {
    if field == EvaluationCriteria then 3 else 2
  }

  predicate Offered(w: Wizard, e: Event)
  {
    match e
    case Open => true
    case Close => w.showModal
    case GoNext => w.showModal && w.step < 3
    case GoPrevious => w.showModal && w.step > 1
    case EditTitle(_) => w.showModal && w.step == 1
    case EditDescription(_) => w.showModal && w.step == 1
    case PickDifficulty(_) => w.showModal && w.step == 1
    case ClickChip(skill) => w.showModal && w.step == 2 && skill in AvailableSkills
    case AddItem(field) => w.showModal && w.step == FieldStep(field)
    case EditItem(field, index, _) =>
      w.showModal && w.step == FieldStep(field) && 0 <= index < |Items(w.form, field)|
    case RemoveItem(field, index) =>
      w.showModal && w.step == FieldStep(field) && 0 <= index < |Items(w.form, field)|
      && |Items(w.form, field)| > 1
  }

  /** The page's response to one user action; an action the page does not
      offer in the current state changes nothing. */
  function Dispatch(w: Wizard, e: Event): Wizard
  {
    if !Offered(w, e) then w
    else match e
      case Open => OpenModal(w)
      case Close => CloseModal(w)
      case GoNext => Next(w)
      case GoPrevious => Previous(w)
      case EditTitle(t) => w.(form := w.form.(title := t))
      case EditDescription(d) => w.(form := w.form.(description := d))
      case PickDifficulty(level) => w.(form := w.form.(difficulty := level))
      case ClickChip(skill) => w.(form := ClickSkillChip(w.form, skill))
      case AddItem(field) => w.(form := AddArrayItem(w.form, field))
      case EditItem(field, index, value) => w.(form := UpdateArrayItem(w.form, field, index, value))
      case RemoveItem(field, index) => w.(form := RemoveArrayItem(w.form, field, index))
  }

  /** What every reachable page state satisfies: the step is 1, 2 or 3, the
      required skills are distinct and non-empty, and no text list is empty. */
  predicate Inv(w: Wizard)
  {
    && 1 <= w.step <= 3
    && NoDup(w.form.requiredSkills)
    && "" !in w.form.requiredSkills
    && forall field :: |Items(w.form, field)| > 0
  }

  lemma InitialInv()
    ensures Inv(InitialWizard())
  {
    assert forall field :: |Items(InitialForm(), field)| == 1;
  }

  /** Changing one list to a non-empty one leaves no list empty. */
  lemma ListsStayNonEmpty(r: Form, f: Form, field: Field)
    requires SameExcept(r, f, field) && |Items(r, field)| > 0
    requires forall other :: |Items(f, other)| > 0
    ensures forall other :: |Items(r, other)| > 0
  {
    forall other ensures |Items(r, other)| > 0 {
      if other != field {
        assert Items(r, other) == Items(f, other);
      }
    }
  }

  /** Every user action keeps the invariant. */
  lemma DispatchKeepsInv(w: Wizard, e: Event)
    requires Inv(w)
    ensures Inv(Dispatch(w, e))
  {
    if Offered(w, e) {
      match e {
        case Close =>
          assert forall field :: |Items(InitialForm(), field)| == 1;
        case ClickChip(skill) =>
          assert "" !in AvailableSkills;
          assert forall field :: Items(Dispatch(w, e).form, field) == Items(w.form, field);
        case AddItem(field) =>
          ListsStayNonEmpty(AddArrayItem(w.form, field), w.form, field);
        case EditItem(field, index, value) =>
          ListsStayNonEmpty(UpdateArrayItem(w.form, field, index, value), w.form, field);
        case RemoveItem(field, index) =>
          ListsStayNonEmpty(RemoveArrayItem(w.form, field, index), w.form, field);
        case _ =>
          assert forall field :: Items(Dispatch(w, e).form, field) == Items(w.form, field);
      }
    }
  }

  /** The state after a run of user actions. */
  function Run(w: Wizard, events: seq<Event>): Wizard
    decreases |events|
  {
    if |events| == 0 then w else Run(Dispatch(w, events[0]), events[1..])
  }

  /** Whatever the user does from the initial page, the invariant holds. */
  lemma {:induction false} RunKeepsInv(w: Wizard, events: seq<Event>)
    requires Inv(w)
    ensures Inv(Run(w, events))
    decreases |events|
  {
    if |events| > 0 {
      DispatchKeepsInv(w, events[0]);
      RunKeepsInv(Dispatch(w, events[0]), events[1..]);
    }
  }

  /** The required skills reaching the publish step never contain an empty
      name, so the `filter(Boolean)` before the skill lookups drops nothing. */
  lemma PublishedSkillsUnfiltered(w: Wizard)
    requires Inv(w)
    ensures NonEmptyEntries(w.form.requiredSkills) == w.form.requiredSkills
  {
  }

  /** Every state the page reaches from its initial state satisfies the invariant. */
  lemma ReachableInv(events: seq<Event>)
    ensures Inv(Run(InitialWizard(), events))
  {
    InitialInv();
    RunKeepsInv(InitialWizard(), events);
  }

  /** Removing the entry just added restores the form. */
  lemma AddThenRemoveRestores(f: Form, field: Field)
    ensures RemoveArrayItem(AddArrayItem(f, field), field, |Items(f, field)|) == f
  {
    var items := Items(f, field);
    assert RemoveAt(items + [""], |items|) == items by {
      assert (items + [""])[..|items|] == items;
    }
  }

  /** Clicking a chip twice restores the form, starting from a form without
      that skill. */
  lemma ClickTwiceRestores(f: Form, skill: string)
    requires |skill| > 0 && skill !in f.requiredSkills
    ensures ClickSkillChip(ClickSkillChip(f, skill), skill) == f
  {
    RemoveAllAppended(f.requiredSkills, skill);
  }

  /** The chips offered on step 2 are distinct and none is empty. */
  lemma AvailableSkillsDistinct()
    ensures NoDup(AvailableSkills)
    ensures "" !in AvailableSkills
  {
  }
}
