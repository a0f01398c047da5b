/**
 The submission review page: a free-text search over student name and
 project title combined with a conjunctive skill filter, the skill
 catalogue over the submitters, and the status badge colour.
 */
module VerifyProfiles {
  import opened Seqs
  import opened Strings
  import opened Types
  import Catalog

  /** `sub.student` for every submission. */
  function Submitters(subs: seq<Submission>): (r: seq<Student>)
    ensures |r| == |subs|
    ensures forall i :: 0 <= i < |subs| ==> r[i] == subs[i].student
  {
    if |subs| == 0 then [] else [subs[0].student] + Submitters(subs[1..])
  }

  /** The filter chips: every skill name of a submitting student, once
      each, in ascending order. */
  function AllSkills(subs: seq<Submission>): (r: seq<string>)
    ensures Catalog.StrictlyAscending(r)
    ensures NoDup(r)
    ensures forall n :: n in r <==> exists i :: 0 <= i < |subs| && n in SkillNames(subs[i].student.skills)
  {
    var r := Catalog.SortedDistinct(RosterSkillNames(Submitters(subs)));
    Catalog.StrictlyAscendingNoDup(r);
    assert forall n :: n in r <==> n in Elems(r);
    r
  }

  /** `matchesSearch`: an empty query, or the lowered query inside the
      lowered student name or the lowered project title. */
  predicate MatchesSearch(sub: Submission, query: string)
  {
    || |query| == 0
    || Includes(Lower(sub.student.name), Lower(query))
    || Includes(Lower(sub.projectTitle), Lower(query))
  }

  /** `matchesSkills`: the student holds every selected skill. */
  predicate MatchesSkills(sub: Submission, sel: seq<string>)
  {
    |sel| == 0 || forall k :: k in sel ==> k in SkillNames(sub.student.skills)
  }

  predicate Keep(sub: Submission, query: string, sel: seq<string>)
  {
    MatchesSearch(sub, query) && MatchesSkills(sub, sel)
  }

  function SearchTest(query: string): Submission -> bool
  {
    sub => MatchesSearch(sub, query)
  }

  function SkillTest(sel: seq<string>): Submission -> bool
  {
    sub => MatchesSkills(sub, sel)
  }

  function KeepTest(query: string, sel: seq<string>): Submission -> bool
  {
    sub => Keep(sub, query, sel)
  }

  /** `filteredSubmissions`. */
  function FilteredSubmissions(subs: seq<Submission>, query: string, sel: seq<string>): (r: seq<Submission>)
    ensures Subseq(r, subs)
    ensures forall sub :: sub in r <==> sub in subs && MatchesSearch(sub, query) && MatchesSkills(sub, sel)
    ensures |query| == 0 && |sel| == 0 ==> r == subs
  {
    Filter(subs, KeepTest(query, sel))
  }

  /** The search text is a plain substring test: the empty-query shortcut
      changes nothing, since every string includes the empty string. */
  lemma SearchIsSubstring(sub: Submission, query: string)
    ensures MatchesSearch(sub, query) <==>
      OccursIn(Lower(query), Lower(sub.student.name)) || OccursIn(Lower(query), Lower(sub.projectTitle))
  {
    IncludesAt(Lower(sub.student.name), Lower(query));
    IncludesAt(Lower(sub.projectTitle), Lower(query));
    if |query| == 0 {
      assert Lower(query) == [];
      IncludesEmpty(Lower(sub.student.name));
    }
  }

  /** The search ignores the case of the query. */
  lemma SearchIgnoresQueryCase(sub: Submission, query: string)
    ensures MatchesSearch(sub, query) == MatchesSearch(sub, Lower(query))
  {
    assert Lower(Lower(query)) == Lower(query);
  }

  /** Selecting one more skill never lets more submissions through. */
  lemma MoreSkillsNarrow(subs: seq<Submission>, query: string, sel: seq<string>, k: string)
    ensures Subseq(FilteredSubmissions(subs, query, sel + [k]), FilteredSubmissions(subs, query, sel))
  {
    assert forall x :: x in sel ==> x in sel + [k];
    FilterNarrows(subs, KeepTest(query, sel + [k]), KeepTest(query, sel));
  }

  /** Narrowing by the search text and then by the chips, in either
      order, yields exactly the filtered list: the two tests are applied
      independently. */
  lemma FiltersCompose(subs: seq<Submission>, query: string, sel: seq<string>)
    ensures Filter(Filter(subs, SearchTest(query)), SkillTest(sel)) == FilteredSubmissions(subs, query, sel)
    ensures Filter(Filter(subs, SkillTest(sel)), SearchTest(query)) == FilteredSubmissions(subs, query, sel)
  {
    FilterFilter(subs, SearchTest(query), SkillTest(sel), KeepTest(query, sel));
    FilterFilter(subs, SkillTest(sel), SearchTest(query), KeepTest(query, sel));
  }

  /** `getStatusColor`: approved is success, rejected is error, anything
      else is warning. */
  function StatusColor(status: string): (r: string)
    ensures r == "var(--success)" <==> status == "approved"
    ensures r == "var(--error)" <==> status == "rejected"
    ensures r == "var(--warning)" <==> status != "approved" && status != "rejected"
  {
    if status == "approved" then "var(--success)"
    else if status == "rejected" then "var(--error)"
    else "var(--warning)"
  }

  /** The text a status is rendered as. */
  function StatusText(s: Status): string
  {
    match s
    case Pending => "pending"
    case Approved => "approved"
    case Rejected => "rejected"
  }

  datatype Icon = CheckCircle | XCircle | Clock

  /** `getStatusIcon`, the badge icon beside the colour. */
  function StatusIcon(status: string): (r: Icon)
    ensures r == CheckCircle <==> status == "approved"
    ensures r == XCircle <==> status == "rejected"
  {
    if status == "approved" then CheckCircle
    else if status == "rejected" then XCircle
    else Clock
  }

  /** Every submission status gets a colour and an icon that agree, and a
      pending submission is shown as a warning. */
  lemma StatusBadgeConsistent(s: Status)
    ensures StatusColor(StatusText(s)) == "var(--success)" <==> StatusIcon(StatusText(s)) == CheckCircle
    ensures StatusColor(StatusText(s)) == "var(--error)" <==> StatusIcon(StatusText(s)) == XCircle
    ensures s == Pending <==> StatusColor(StatusText(s)) == "var(--warning)"
  {
  }
}
