/**
 The saved-profiles page: the roster students whose ids are in the saved
 set, and the unsave action that deletes an id from that set. The set is
 the one the search page toggles, passed here as a value.

 The page's unsave handler follows the `delete` with a full page reload,
 which starts the module-level set over from its initial value; the
 handler as written is `UnsaveAsWritten`, the intended one `Unsave`.
 */
module SavedProfiles {
  import opened Seqs
  import opened Types

  /** `mockStudents.filter((student) => savedProfiles.has(student.id))`. */
  function SavedView(roster: seq<Student>, saved: set<string>): (r: seq<Student>)
    ensures Subseq(r, roster)
    ensures |r| <= |roster|
    ensures forall st :: st in r <==> st in roster && st.id in saved
  {
    Filter(roster, (st: Student) => st.id in saved)
  }

  /** `handleUnsave`: `savedProfiles.delete(studentId)`. */
  function Unsave(saved: set<string>, id: string): (r: set<string>)
    ensures id !in r
    ensures forall other :: other != id ==> (other in r <==> other in saved)
    ensures id !in saved ==> r == saved
    ensures |r| == if id in saved then |saved| - 1 else |saved|
  {
    saved - {id}
  }

  /** The saved ids every page load starts from. */
  const InitialSaved: set<string> := {"student-2", "student-4"}

  /** A full page load: the module holding the saved set is evaluated
      again, so the set starts over whatever it held. */
  function Reload(saved: set<string>): set<string>
  {
    InitialSaved
  }

  /** `handleUnsave` as written: the `delete`, then `window.location.reload()`. */
  function UnsaveAsWritten(saved: set<string>, id: string): set<string>
  {
    Reload(Unsave(saved, id))
  }

  /** As written, an unsave click is undone by the reload: a student saved
      from the start is still listed after clicking its unsave button,
      and the page shows the initial list whatever was saved before. */
  lemma UnsaveAsWrittenKeepsStudent(roster: seq<Student>, saved: set<string>, st: Student)
    requires st in roster && st.id in InitialSaved
    ensures st in SavedView(roster, UnsaveAsWritten(saved, st.id))
    ensures st !in SavedView(roster, Unsave(saved, st.id))
    ensures SavedView(roster, UnsaveAsWritten(saved, st.id)) == SavedView(roster, InitialSaved)
  {
  }

  /** As written, the reload also drops every save made on the search page. */
  lemma UnsaveAsWrittenForgetsSaves(roster: seq<Student>, saved: set<string>, id: string, st: Student)
    requires st in roster && st.id in saved && st.id != id && st.id !in InitialSaved
    ensures st !in SavedView(roster, UnsaveAsWritten(saved, id))
    ensures st in SavedView(roster, Unsave(saved, id))
  {
  }

  /** The unsave the page intends, the `delete` alone: the page then shows
      the previous list without that student, the others unchanged and in
      order. */
  lemma {:induction false} UnsaveRemovesFromView(roster: seq<Student>, saved: set<string>, id: string)
    ensures SavedView(roster, Unsave(saved, id)) == WithoutId(SavedView(roster, saved), id)
    decreases |roster|
  {
    if |roster| > 0 {
      UnsaveRemovesFromView(roster[1..], saved, id);
      if roster[0].id in saved {
        var tail := SavedView(roster[1..], saved);
        assert SavedView(roster, saved) == [roster[0]] + tail;
        assert ([roster[0]] + tail)[1..] == tail;
      }
    }
  }

  /** The view keeps the first student exactly when saved, then views the rest. */
  lemma SavedViewCons(roster: seq<Student>, saved: set<string>)
    requires |roster| > 0
    ensures SavedView(roster, saved) ==
      (if roster[0].id in saved then [roster[0]] else []) + SavedView(roster[1..], saved)
  {
  }

  /** The list with every student carrying `id` dropped. */
  function WithoutId(students: seq<Student>, id: string): (r: seq<Student>)
    ensures Subseq(r, students)
    ensures forall st :: st in r <==> st in students && st.id != id
  {
    Filter(students, (st: Student) => st.id != id)
  }

  /** The header count: `saved.length` profiles. */
  function SavedCount(roster: seq<Student>, saved: set<string>): (n: nat)
    ensures n <= |roster|
    ensures n == 0 <==> forall st :: st in roster ==> st.id !in saved
  {
    var view := SavedView(roster, saved);
    assert view != [] ==> view[0] in view;
    |view|
  }

  /** The empty state is shown exactly when no roster student is saved. */
  predicate ShowsEmptyState(roster: seq<Student>, saved: set<string>)
  {
    SavedCount(roster, saved) == 0
  }

  /** Saving a profile from the search page makes it appear here. */
  lemma SavedFromSearchAppears(roster: seq<Student>, saved: set<string>, st: Student)
    requires st in roster
    ensures st in SavedView(roster, saved + {st.id})
    ensures !ShowsEmptyState(roster, saved + {st.id})
  {
  }
}
