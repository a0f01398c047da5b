/**
 The records of the portal (students with scored skills, submissions) and
 the small projections of them that several pages share.
 */
module Types {
  import opened Seqs

  datatype Option<T> = None | Some(value: T)

  /** A skill a student holds, with its assessed score (a whole number, as
      every score of the mock data is). */
  datatype Skill = Skill(name: string, score: int)

  datatype Student = Student(
    id: string,
    name: string,
    email: string,
    avatar: Option<string>,
    skills: seq<Skill>,
    bio: string,
    location: string,
    education: string,
    experience: string)

  /** The lifecycle of a submission. */
  datatype Status = Pending | Approved | Rejected

  /** A student's answer to a published project; `submittedDate` is an
      opaque timestamp, since no page computes with it. */
  datatype Submission = Submission(
    id: string,
    studentId: string,
    student: Student,
    projectId: string,
    projectTitle: string,
    submittedDate: int,
    status: Status,
    content: string,
    score: Option<int>)

  /** `skills.map((s) => s.name)`. */
  function SkillNames(skills: seq<Skill>): (r: seq<string>)
    ensures |r| == |skills|
    ensures forall i :: 0 <= i < |skills| ==> r[i] == skills[i].name
  {
    if |skills| == 0 then [] else [skills[0].name] + SkillNames(skills[1..])
  }

  /** `students.flatMap((st) => st.skills.map((s) => s.name))`. */
  function RosterSkillNames(students: seq<Student>): (r: seq<string>)
    ensures forall n :: n in r <==> exists i :: 0 <= i < |students| && n in SkillNames(students[i].skills)
  {
    if |students| == 0 then []
    else SkillNames(students[0].skills) + RosterSkillNames(students[1..])
  }

  /** `skills.reduce((a, b) => a + b.score, 0)`. */
  function ScoreSum(skills: seq<Skill>): int
  {
    if |skills| == 0 then 0 else skills[0].score + ScoreSum(skills[1..])
  }

  /** Every score lies between `lo` and `hi`. */
  predicate ScoresWithin(skills: seq<Skill>, lo: int, hi: int)
  {
    forall i :: 0 <= i < |skills| ==> lo <= skills[i].score <= hi
  }

  /** The total of scores that each lie in [lo, hi] lies in [n*lo, n*hi]. */
  lemma {:induction false} ScoreSumBounds(skills: seq<Skill>, lo: int, hi: int)
    requires ScoresWithin(skills, lo, hi)
    ensures |skills| * lo <= ScoreSum(skills) <= |skills| * hi
    decreases |skills|
  {
    if |skills| > 0 {
      assert ScoresWithin(skills[1..], lo, hi) by {
        forall i | 0 <= i < |skills[1..]| ensures lo <= skills[1..][i].score <= hi {
          assert skills[1..][i] == skills[i + 1];
        }
      }
      ScoreSumBounds(skills[1..], lo, hi);
    }
  }
}
