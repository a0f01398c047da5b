/**
 Worked rankings: the search page's roster with the React chip selected,
 and a two-student roster where the matched-skill mean decides.
 */
module Fixtures {
  import opened Types
  import opened Seqs
  import opened Ranking
  import SavedProfiles

  function Pupil(id: string, name: string, skills: seq<Skill>): Student
  {
    Student(id, name, "", None, skills, "", "", "", "")
  }

  const Alex := Pupil("student-1", "Alex Chen",
    [Skill("React", 92), Skill("TypeScript", 88), Skill("Node.js", 85), Skill("Python", 78), Skill("SQL", 82)])
  const Maria := Pupil("student-2", "Maria Rodriguez",
    [Skill("Python", 95), Skill("Machine Learning", 90), Skill("TensorFlow", 87), Skill("SQL", 85), Skill("R", 80)])
  const James := Pupil("student-3", "James Kim",
    [Skill("Java", 90), Skill("Spring Boot", 88), Skill("Microservices", 85), Skill("Docker", 83), Skill("Kubernetes", 80)])
  const Emily := Pupil("student-4", "Emily Johnson",
    [Skill("React", 94), Skill("TypeScript", 91), Skill("CSS", 93), Skill("UI/UX Design", 89), Skill("Figma", 87)])
  const Raj := Pupil("student-5", "Raj Patel",
    [Skill("Python", 89), Skill("Django", 86), Skill("PostgreSQL", 88), Skill("AWS", 84), Skill("Redis", 81)])
  const Sophie := Pupil("student-6", "Sophie Laurent",
    [Skill("React", 87), Skill("Node.js", 90), Skill("TypeScript", 85), Skill("MongoDB", 82), Skill("GraphQL", 79)])

  const Roster := [Alex, Maria, James, Emily, Raj, Sophie]

  const React := ["React"]

  /** A student whose first skill is the only one named React. */
  lemma Holds(st: Student, first: Skill)
    requires |st.skills| > 0 && st.skills[0] == first && first.name == "React"
    requires forall i :: 1 <= i < |st.skills| ==> st.skills[i].name != "React"
    ensures MatchedCount(React, st) == 1
    ensures AvgSearched(React, st) == Ratio(first.score, 1)
  {
    assert "React" in SkillNames(st.skills);
    assert MatchedSkills(React, st) == React;
    var hits := SearchedSkills(st.skills, React);
    assert forall s :: s in hits <==> s == first;
    var tail := Filter(st.skills[1..], (s: Skill) => s.name in React);
    assert |tail| == 0 by {
      assert forall s :: s in tail ==> s in st.skills[1..];
      assert forall s :: s in st.skills[1..] ==> s.name != "React";
    }
    assert hits == [first] + tail;
    assert ScoreSum(hits) == first.score + ScoreSum(tail);
  }

  /** A student with no skill named React. */
  lemma Lacks(st: Student)
    requires forall i :: 0 <= i < |st.skills| ==> st.skills[i].name != "React"
    ensures MatchedCount(React, st) == 0
  {
    assert "React" !in SkillNames(st.skills);
    assert |MatchedSkills(React, st)| == 0;
  }

  /** Candidates of the roster suffix from `k`, when the student at `k` matches. */
  lemma KeepAt(sel: seq<string>, s: seq<Student>, k: nat)
    requires k < |s| && MatchedCount(sel, s[k]) > 0
    ensures Candidates(s[k..], sel) == [s[k]] + Candidates(s[k + 1..], sel)
  {
    assert s[k..] == [s[k]] + s[k + 1..];
    CandidatesKeep(s[k], s[k + 1..], sel);
  }

  /** Candidates of the roster suffix from `k`, when the student at `k` does not match. */
  lemma SkipAt(sel: seq<string>, s: seq<Student>, k: nat)
    requires k < |s| && MatchedCount(sel, s[k]) == 0
    ensures Candidates(s[k..], sel) == Candidates(s[k + 1..], sel)
  {
    assert s[k..] == [s[k]] + s[k + 1..];
    CandidatesSkip(s[k], s[k + 1..], sel);
  }

  /** Three students where the second outranks the first and the first the third. */
  lemma SortThree(sel: seq<string>, a: Student, b: Student, c: Student)
    requires Cmp(sel, a, b) > 0 && Cmp(sel, a, c) <= 0 && Cmp(sel, b, c) <= 0
    ensures SortRanked(sel, [a, b, c]) == [b, a, c]
  {
    SortTwo(sel, a, b);
    SortLastOfThree(sel, a, b, c);
    InsertAfterLast(sel, c, [b, a]);
  }

  /** The sort of three inserts the third into the sort of the first two. */
  lemma SortLastOfThree(sel: seq<string>, a: Student, b: Student, c: Student)
    ensures SortRanked(sel, [a, b, c]) == InsertRanked(sel, c, SortRanked(sel, [a, b]))
  {
    assert [a, b, c][..2] == [a, b];
    assert [a, b, c][2] == c;
  }

  /** An element the comparator lets follow the last one stays at the end. */
  lemma InsertAfterLast(sel: seq<string>, x: Student, s: seq<Student>)
    requires |s| > 0 && Cmp(sel, s[|s| - 1], x) <= 0
    ensures InsertRanked(sel, x, s) == s + [x]
  {
  }

  /** Two students end up in comparator order. */
  lemma SortTwo(sel: seq<string>, a: Student, b: Student)
    ensures SortRanked(sel, [a, b]) == if Cmp(sel, a, b) > 0 then [b, a] else [a, b]
  {
    assert [a, b][..1] == [a];
    assert [a][..0] == [];
    assert SortRanked(sel, [a]) == [a];
    assert SortRanked(sel, [a, b]) == InsertRanked(sel, b, [a]);
    assert [a][..0] == [];
  }

  /** Two matching students are both candidates, in roster order. */
  lemma PairCandidates(sel: seq<string>, a: Student, b: Student)
    requires MatchedCount(sel, a) > 0 && MatchedCount(sel, b) > 0
    ensures Candidates([a, b], sel) == [a, b]
  {
    CandidatesKeep(b, [], sel);
    assert [b] == [b] + [];
    CandidatesKeep(a, [b], sel);
  }

  /** A student who lists React once, first, with the given score. */
  predicate ReactFirst(st: Student, score: int)
  {
    |st.skills| > 0 && st.skills[0] == Skill("React", score) &&
    forall i :: 1 <= i < |st.skills| ==> st.skills[i].name != "React"
  }

  /** A student with no skill named React. */
  predicate NoReact(st: Student)
  {
    forall i :: 0 <= i < |st.skills| ==> st.skills[i].name != "React"
  }

  /** A React holder heading the suffix from `k` heads its candidates. */
  lemma KeepReactAt(s: seq<Student>, k: nat, score: int)
    requires k < |s| && ReactFirst(s[k], score)
    ensures Candidates(s[k..], React) == [s[k]] + Candidates(s[k + 1..], React)
  {
    Holds(s[k], Skill("React", score));
    KeepAt(React, s, k);
  }

  /** A student without React heading the suffix from `k` is dropped. */
  lemma SkipReactAt(s: seq<Student>, k: nat)
    requires k < |s| && NoReact(s[k])
    ensures Candidates(s[k..], React) == Candidates(s[k + 1..], React)
  {
    Lacks(s[k]);
    SkipAt(React, s, k);
  }

  /** The matching students among the last three of a mock-shaped roster. */
  lemma LastThreeCandidates(s: seq<Student>, y: int, z: int)
    requires |s| == 6 && ReactFirst(s[3], y) && NoReact(s[4]) && ReactFirst(s[5], z)
    ensures Candidates(s[3..], React) == [s[3], s[5]]
  {
    KeepReactAt(s, 5, z);
    assert s[6..] == [];
    SkipReactAt(s, 4);
    KeepReactAt(s, 3, y);
  }

  /** The matching students of a six-student roster shaped like the mock data. */
  lemma SixCandidates(s: seq<Student>, x: int, y: int, z: int)
    requires |s| == 6 && ReactFirst(s[0], x) && ReactFirst(s[3], y) && ReactFirst(s[5], z)
    requires NoReact(s[1]) && NoReact(s[2]) && NoReact(s[4])
    ensures Candidates(s, React) == [s[0], s[3], s[5]]
  {
    LastThreeCandidates(s, y, z);
    FirstThreeCandidates(s, x);
  }

  /** Of the first three students of a mock-shaped roster only the first matches. */
  lemma FirstThreeCandidates(s: seq<Student>, x: int)
    requires |s| == 6 && ReactFirst(s[0], x) && NoReact(s[1]) && NoReact(s[2])
    ensures Candidates(s, React) == [s[0]] + Candidates(s[3..], React)
  {
    SkipReactAt(s, 2);
    SkipReactAt(s, 1);
    KeepReactAt(s, 0, x);
    assert s[0..] == s;
  }

  /** Any roster shaped like the mock data ranks the three React holders by
      their React score alone, whatever their other skills. */
  lemma SixRanking(s: seq<Student>)
    requires |s| == 6 && ReactFirst(s[0], 92) && ReactFirst(s[3], 94) && ReactFirst(s[5], 87)
    requires NoReact(s[1]) && NoReact(s[2]) && NoReact(s[4])
    ensures Rank(s, React) == [s[3], s[0], s[5]]
  {
    SixCandidates(s, 92, 94, 87);
    Holds(s[0], Skill("React", 92));
    Holds(s[3], Skill("React", 94));
    Holds(s[5], Skill("React", 87));
    assert Cmp(React, s[0], s[3]) > 0;
    assert Cmp(React, s[0], s[5]) < 0;
    assert Cmp(React, s[3], s[5]) < 0;
    SortThree(React, s[0], s[3], s[5]);
  }

  /** Selecting React ranks Emily (94), then Alex (92), then Sophie (87). */
  lemma ReactRanking()
    ensures Rank(Roster, React) == [Emily, Alex, Sophie]
  {
    SixRanking(Roster);
  }

  const Alice := Pupil("alice", "Alice", [Skill("React", 90), Skill("SQL", 70)])
  const Bob := Pupil("bob", "Bob", [Skill("React", 80), Skill("SQL", 95)])

  const ReactAndSql := ["React", "SQL"]

  /** A student holding exactly React and SQL, in that order. */
  lemma HoldsBoth(st: Student, react: int, sql: int)
    requires st.skills == [Skill("React", react), Skill("SQL", sql)]
    ensures MatchedCount(ReactAndSql, st) == 2
    ensures AvgSearched(ReactAndSql, st) == Ratio(react + sql, 2)
  {
    assert SkillNames(st.skills) == ReactAndSql;
    assert MatchedSkills(ReactAndSql, st) == ReactAndSql;
    assert SearchedSkills(st.skills, ReactAndSql) == st.skills;
    var rest := st.skills[1..];
    assert rest[0].score == sql && |rest[1..]| == 0;
    assert ScoreSum(rest) == sql + ScoreSum(rest[1..]);
    assert ScoreSum(st.skills) == react + ScoreSum(rest);
  }

  /** Two students holding React and SQL are ordered by their mean over both. */
  lemma BothPairRanking(a: Student, b: Student)
    requires a.skills == [Skill("React", 90), Skill("SQL", 70)]
    requires b.skills == [Skill("React", 80), Skill("SQL", 95)]
    ensures Rank([a, b], ReactAndSql) == [b, a]
  {
    HoldsBoth(a, 90, 70);
    HoldsBoth(b, 80, 95);
    PairCandidates(ReactAndSql, a, b);
    assert Cmp(ReactAndSql, a, b) > 0;
    SortTwo(ReactAndSql, a, b);
  }

  /** Both match React and SQL; Bob's mean 87.5 beats Alice's 80. */
  lemma BothSkillsRanking()
    ensures Rank([Alice, Bob], ReactAndSql) == [Bob, Alice]
  {
    BothPairRanking(Alice, Bob);
  }

  /** Two React holders are ranked by their React scores when these differ. */
  lemma TwoRanking(a: Student, b: Student, x: int, y: int)
    requires ReactFirst(a, x) && ReactFirst(b, y) && x > y
    ensures Rank([a, b], React) == [a, b]
  {
    Holds(a, Skill("React", x));
    Holds(b, Skill("React", y));
    PairCandidates(React, a, b);
    assert Cmp(React, a, b) < 0;
    SortTwo(React, a, b);
  }

  /** With React alone, Alice's 90 beats Bob's 80. */
  lemma ReactOnlyRanking()
    ensures Rank([Alice, Bob], React) == [Alice, Bob]
  {
    TwoRanking(Alice, Bob, 90, 80);
  }

  /** A six-student roster with only the second and fourth ids saved
      shows those two students, in roster order. */
  lemma SavedOfSix(s: seq<Student>, saved: set<string>)
    requires |s| == 6
    requires s[1].id in saved && s[3].id in saved
    requires s[0].id !in saved && s[2].id !in saved && s[4].id !in saved && s[5].id !in saved
    ensures SavedProfiles.SavedView(s, saved) == [s[1], s[3]]
  {
    forall k | 0 <= k < 6
      ensures SavedProfiles.SavedView(s[k..], saved) ==
        (if s[k].id in saved then [s[k]] else []) + SavedProfiles.SavedView(s[k + 1..], saved)
    {
      SavedProfiles.SavedViewCons(s[k..], saved);
      assert s[k..][1..] == s[k + 1..];
    }
    assert s[6..] == [] && s[0..] == s;
  }

  /** The saved-profiles page at start lists Maria and Emily, in roster order. */
  lemma InitialSavedView()
    ensures SavedProfiles.SavedView(Roster, SavedProfiles.InitialSaved) == [Maria, Emily]
    ensures SavedProfiles.SavedCount(Roster, SavedProfiles.InitialSaved) == 2
  {
    SavedOfSix(Roster, SavedProfiles.InitialSaved);
  }

  /** Unsaving Maria on a fresh page: as written she is still listed after
      the click; without the reload she is gone. */
  lemma UnsaveMaria()
    ensures Maria in SavedProfiles.SavedView(Roster, SavedProfiles.UnsaveAsWritten(SavedProfiles.InitialSaved, Maria.id))
    ensures Maria !in SavedProfiles.SavedView(Roster, SavedProfiles.Unsave(SavedProfiles.InitialSaved, Maria.id))
  {
    assert Roster[1] == Maria;
    SavedProfiles.UnsaveAsWrittenKeepsStudent(Roster, SavedProfiles.InitialSaved, Maria);
  }
}
