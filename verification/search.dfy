/**
 The search page around the ranking: the skill catalogue over the roster,
 the saved-profile toggle, and the per-result panel of matched skills.
 */
module Search {
  import opened Seqs
  import opened Types
  import Catalog
  import Ranking

  /** The chips of the page: every skill name held by some roster student,
      once each, in ascending order. */
  function AllSkills(roster: seq<Student>): (r: seq<string>)
    ensures Catalog.StrictlyAscending(r)
    ensures NoDup(r)
    ensures forall n :: n in r <==> exists i :: 0 <= i < |roster| && n in SkillNames(roster[i].skills)
  {
    var r := Catalog.SortedDistinct(RosterSkillNames(roster));
    Catalog.StrictlyAscendingNoDup(r);
    assert forall n :: n in r <==> n in Elems(r);
    r
  }

  /** `handleSaveProfile`: a saved id is unsaved, any other id is saved. */
  function ToggleSaved(saved: set<string>, id: string): (r: set<string>)
    ensures id in r <==> id !in saved
    ensures forall other :: other != id ==> (other in r <==> other in saved)
  {
    if id in saved then saved - {id} else saved + {id}
  }

  /** Saving and unsaving the same profile restores the saved set. */
  lemma ToggleSavedTwice(saved: set<string>, id: string)
    ensures ToggleSaved(ToggleSaved(saved, id), id) == saved
  {
  }

  /** Position `i` holds the first skill called `name`. */
  predicate FirstNamed(skills: seq<Skill>, name: string, i: int)
  {
    0 <= i < |skills| && skills[i].name == name && forall j :: 0 <= j < i ==> skills[j].name != name
  }

  /** `getSkillScore`: the score of the first skill with that name, 0 when
      the student has none (`?.score || 0`). */
  function SkillScore(skills: seq<Skill>, name: string): (r: int)
    ensures name !in SkillNames(skills) ==> r == 0
    ensures forall i :: FirstNamed(skills, name, i) ==> r == skills[i].score
  {
    if |skills| == 0 then 0
    else if skills[0].name == name then skills[0].score
    else
      assert SkillNames(skills)[1..] == SkillNames(skills[1..]);
      SkillScore(skills[1..], name)
  }

  /** One line of the matched-skills panel of a result card. */
  datatype PanelEntry = PanelEntry(skill: string, score: int)

  function PanelSkills(panel: seq<PanelEntry>): (r: seq<string>)
    ensures |r| == |panel|
    ensures forall i :: 0 <= i < |panel| ==> r[i] == panel[i].skill
  {
    if |panel| == 0 then [] else [panel[0].skill] + PanelSkills(panel[1..])
  }

  /** The panel: the selected skills, in selection order, each shown with
      its score when that score is positive and left out otherwise. */
  function MatchedPanel(sel: seq<string>, skills: seq<Skill>): (r: seq<PanelEntry>)
    ensures |r| <= |sel|
    ensures forall i :: 0 <= i < |r| ==> r[i].score == SkillScore(skills, r[i].skill) && r[i].score > 0
    ensures PanelSkills(r) == Filter(sel, k => SkillScore(skills, k) > 0)
  {
    if |sel| == 0 then []
    else
      var score := SkillScore(skills, sel[0]);
      var rest := MatchedPanel(sel[1..], skills);
      if score > 0 then
        assert PanelSkills([PanelEntry(sel[0], score)] + rest) == [sel[0]] + PanelSkills(rest);
        [PanelEntry(sel[0], score)] + rest
      else rest
  }

  /** When every score is positive the panel lists exactly the matched
      skills, in selection order. */
  lemma PanelIsMatched(sel: seq<string>, st: Student)
    requires forall i :: 0 <= i < |st.skills| ==> st.skills[i].score > 0
    ensures PanelSkills(MatchedPanel(sel, st.skills)) == Ranking.MatchedSkills(sel, st)
  {
    forall k | k in sel ensures (SkillScore(st.skills, k) > 0) == (k in SkillNames(st.skills)) {
      if k in SkillNames(st.skills) {
        FirstScorePositive(st.skills, k);
      }
    }
    FilterCongruent(sel, k => SkillScore(st.skills, k) > 0, k => k in SkillNames(st.skills));
  }

  lemma {:induction false} FirstScorePositive(skills: seq<Skill>, name: string)
    requires forall i :: 0 <= i < |skills| ==> skills[i].score > 0
    requires name in SkillNames(skills)
    ensures SkillScore(skills, name) > 0
    decreases |skills|
  {
    if skills[0].name != name {
      assert SkillNames(skills)[1..] == SkillNames(skills[1..]);
      FirstScorePositive(skills[1..], name);
    }
  }
}
