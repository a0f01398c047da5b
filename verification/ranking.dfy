/**
 The candidate ranking of the search page: score every student of the
 roster against the selected skills, drop those matching none, and sort
 the rest by matched-skill count, then matched-skill mean (when the means
 are more than one hundredth apart), then overall mean.

 Means are exact fractions; the one-hundredth tolerance is decided by
 cross-multiplication. The sort is modelled as a stable insertion sort:
 each element is moved left past every element the comparator puts after
 it. `Array.prototype.sort` is required to be stable but its algorithm is
 the engine's (V8 has used TimSort since version 7.0, and an insertion
 sort on short arrays before that). On ordinary input, where the
 comparator is a total preorder, every stable sort returns this list
 (`RankingOrder.RankIsTheStableSort`).
 */
module Ranking {
  import opened Seqs
  import opened Types

  type Pos = n: int | n > 0 witness 1

  /** The mean `num / den`, kept exact. */
  datatype Ratio = Ratio(num: int, den: Pos)

  /** The real number a mean stands for. */
  function Value(q: Ratio): real
  {
    q.num as real / q.den as real
  }

  function Abs(x: int): nat
  {
    if x < 0 then -x else x
  }

  function RealAbs(x: real): real
  {
    if x < 0.0 then -x else x
  }

  function Sign(x: int): (r: int)
    ensures r < 0 <==> x < 0
    ensures r > 0 <==> x > 0
  {
    if x < 0 then -1 else if x > 0 then 1 else 0
  }

  /** Means closer than `1 / ToleranceDenominator` fall through to the next key. */
  const ToleranceDenominator: int := 100

  /** `Math.abs(a - b) > 0.01`, by cross-multiplication. */
  predicate Differ(a: Ratio, b: Ratio)
  {
    Abs(a.num * b.den - b.num * a.den) * ToleranceDenominator > a.den * b.den
  }

  /** The sign of `a - b`. */
  function CompareRatio(a: Ratio, b: Ratio): int
  {
    Sign(a.num * b.den - b.num * a.den)
  }

  lemma CrossDifference(a: Ratio, b: Ratio)
    ensures Value(a) - Value(b) == (a.num * b.den - b.num * a.den) as real / (a.den * b.den) as real
  {
    var x, y := a.num as real, b.num as real;
    var p, q := a.den as real, b.den as real;
    assert x / p == (x * q) / (p * q);
    assert y / q == (y * p) / (p * q);
  }

  /** The cross-multiplied comparison agrees with comparing the means. */
  lemma CompareRatioMeaning(a: Ratio, b: Ratio)
    ensures CompareRatio(a, b) < 0 <==> Value(a) < Value(b)
    ensures CompareRatio(a, b) > 0 <==> Value(a) > Value(b)
  {
    CrossDifference(a, b);
    var d := (a.num * b.den - b.num * a.den) as real;
    var pq := (a.den * b.den) as real;
    assert pq > 0.0;
    assert d < 0.0 <==> d / pq < 0.0;
    assert d > 0.0 <==> d / pq > 0.0;
  }

  lemma ScaledAbove(x: real, p: real, t: real)
    requires p > 0.0 && t > 0.0
    ensures RealAbs(x / p) > 1.0 / t <==> RealAbs(x) * t > p
  {
    assert RealAbs(x / p) == RealAbs(x) / p;
    calc {
      RealAbs(x) / p > 1.0 / t;
    <==> { assert RealAbs(x) / p * (p * t) == RealAbs(x) * t; }
      RealAbs(x) * t > p;
    }
  }

  /** The cross-multiplied tolerance test is the source's test on the means. */
  lemma DifferMeaning(a: Ratio, b: Ratio)
    ensures Differ(a, b) <==> RealAbs(Value(a) - Value(b)) > 1.0 / ToleranceDenominator as real
  {
    CrossDifference(a, b);
    var d := a.num * b.den - b.num * a.den;
    var pq := a.den * b.den;
    ScaledAbove(d as real, pq as real, ToleranceDenominator as real);
    assert RealAbs(d as real) == Abs(d) as real;
    assert (Abs(d) * ToleranceDenominator) as real == Abs(d) as real * ToleranceDenominator as real;
  }

  /** `selectedSkills.filter((skill) => studentSkillNames.includes(skill))`. */
  function MatchedSkills(sel: seq<string>, st: Student): (r: seq<string>)
    ensures Subseq(r, sel)
    ensures forall k :: k in r <==> k in sel && k in SkillNames(st.skills)
    ensures NoDup(sel) ==> NoDup(r)
  {
    Filter(sel, k => k in SkillNames(st.skills))
  }

  /** `matchedSkillsCount`. */
  function MatchedCount(sel: seq<string>, st: Student): nat
  {
    |MatchedSkills(sel, st)|
  }

  /** `student.skills.filter((s) => selectedSkills.includes(s.name))`. */
  function SearchedSkills(skills: seq<Skill>, sel: seq<string>): (r: seq<Skill>)
    ensures Subseq(r, skills)
    ensures forall s :: s in r <==> s in skills && s.name in sel
  {
    Filter(skills, (s: Skill) => s.name in sel)
  }

  /** `avgSearchedScore`: the mean score over the searched skills, 0 when there are none. */
  function AvgSearched(sel: seq<string>, st: Student): Ratio
  {
    var hits := SearchedSkills(st.skills, sel);
    if |hits| > 0 then Ratio(ScoreSum(hits), |hits|) else Ratio(0, 1)
  }

  /** `allSkillsAvg`: the mean over all skills; `None` is the `NaN` that
      `0 / 0` yields for a student without skills. */
  function AllAvg(st: Student): Option<Ratio>
  {
    if |st.skills| > 0 then Some(Ratio(ScoreSum(st.skills), |st.skills|)) else None
  }

  /** The sign of the comparator handed to `sort`: negative when `a` is to
      stand before `b`, positive when after. A `NaN` difference of overall
      means compares as neither. */
  function Cmp(sel: seq<string>, a: Student, b: Student): (r: int)
    ensures -1 <= r <= 1
  {
    var ca, cb := MatchedCount(sel, a), MatchedCount(sel, b);
    if ca != cb then Sign(cb - ca)
    else
      var ma, mb := AvgSearched(sel, a), AvgSearched(sel, b);
      if Differ(ma, mb) then CompareRatio(mb, ma)
      else match (AllAvg(a), AllAvg(b))
        case (Some(xa), Some(xb)) => CompareRatio(xb, xa)
        case _ => 0
  }

  /** Swapping the arguments negates the comparator. */
  lemma CmpAntisymmetric(sel: seq<string>, a: Student, b: Student)
    ensures Cmp(sel, a, b) == -Cmp(sel, b, a)
  {
  }

  /** `a` may stand right before `b`: the three keys, stated on the means. */
  predicate MayPrecede(sel: seq<string>, a: Student, b: Student)
  {
    var ca, cb := MatchedCount(sel, a), MatchedCount(sel, b);
    var ma, mb := AvgSearched(sel, a), AvgSearched(sel, b);
    || ca > cb
    || (ca == cb && RealAbs(Value(ma) - Value(mb)) > 0.01 && Value(ma) > Value(mb))
    || (ca == cb && RealAbs(Value(ma) - Value(mb)) <= 0.01 &&
        match (AllAvg(a), AllAvg(b))
        case (Some(xa), Some(xb)) => Value(xa) >= Value(xb)
        case _ => true)
  }

  /** The comparator lets `a` stand before `b` exactly when the keys do. */
  lemma CmpMeaning(sel: seq<string>, a: Student, b: Student)
    ensures Cmp(sel, a, b) <= 0 <==> MayPrecede(sel, a, b)
  {
    var ma, mb := AvgSearched(sel, a), AvgSearched(sel, b);
    DifferMeaning(ma, mb);
    CompareRatioMeaning(mb, ma);
    match (AllAvg(a), AllAvg(b)) {
      case (Some(xa), Some(xb)) => CompareRatioMeaning(xb, xa);
      case _ =>
    }
  }

  /** Every adjacent pair is in comparator order. */
  predicate Ranked(sel: seq<string>, s: seq<Student>)
  {
    forall i :: 0 <= i < |s| - 1 ==> Cmp(sel, s[i], s[i + 1]) <= 0
  }

  /** One step of the insertion sort: `x` moves left past every trailing
      element that the comparator puts after it. */
  function InsertRanked(sel: seq<string>, x: Student, sorted: seq<Student>): (r: seq<Student>)
    ensures |r| == |sorted| + 1
    ensures multiset(r) == multiset(sorted) + multiset{x}
    ensures r[|r| - 1] == x || (|sorted| > 0 && r[|r| - 1] == sorted[|sorted| - 1])
    ensures Ranked(sel, sorted) ==> Ranked(sel, r)
    decreases |sorted|
  {
    if |sorted| == 0 then [x]
    else
      var init, last := sorted[..|sorted| - 1], sorted[|sorted| - 1];
      assert sorted == init + [last];
      if Cmp(sel, last, x) > 0 then
        var front := InsertRanked(sel, x, init);
        if Ranked(sel, sorted) then
          CmpAntisymmetric(sel, last, x);
          RankedPrefix(sel, sorted);
          RankedSnoc(sel, front, last);
          front + [last]
        else
          front + [last]
      else if Ranked(sel, sorted) then
        RankedSnoc(sel, sorted, x);
        sorted + [x]
      else
        sorted + [x]
  }

  /** Dropping the last element keeps a ranked list ranked. */
  lemma RankedPrefix(sel: seq<string>, s: seq<Student>)
    requires |s| > 0 && Ranked(sel, s)
    ensures Ranked(sel, s[..|s| - 1])
  {
    var p := s[..|s| - 1];
    forall i | 0 <= i < |p| - 1 ensures Cmp(sel, p[i], p[i + 1]) <= 0 {
      assert p[i] == s[i] && p[i + 1] == s[i + 1];
    }
  }

  /** Appending an element the comparator lets follow the last one keeps a
      list ranked. */
  lemma RankedSnoc(sel: seq<string>, s: seq<Student>, y: Student)
    requires Ranked(sel, s)
    requires |s| > 0 ==> Cmp(sel, s[|s| - 1], y) <= 0
    ensures Ranked(sel, s + [y])
  {
    var t := s + [y];
    forall i | 0 <= i < |t| - 1 ensures Cmp(sel, t[i], t[i + 1]) <= 0 {
      assert t[i] == s[i];
      if i + 1 < |s| {
        assert t[i + 1] == s[i + 1];
      } else {
        assert t[i + 1] == y;
      }
    }
  }

  /** The insertion sort: the elements are inserted in roster order. */
  function SortRanked(sel: seq<string>, s: seq<Student>): (r: seq<Student>)
    ensures multiset(r) == multiset(s)
    ensures Ranked(sel, r)
  {
    if |s| == 0 then []
    else
      assert s == s[..|s| - 1] + [s[|s| - 1]];
      InsertRanked(sel, s[|s| - 1], SortRanked(sel, s[..|s| - 1]))
  }

  /** The test `(s) => s.matchedSkillsCount > 0`. */
  function Matches(sel: seq<string>): Student -> bool
  {
    st => MatchedCount(sel, st) > 0
  }

  /** `studentsWithScores.filter((s) => s.matchedSkillsCount > 0)`. */
  function Candidates(roster: seq<Student>, sel: seq<string>): seq<Student>
  {
    Filter(roster, Matches(sel))
  }

  /** The candidates keep roster order and are exactly the students
      matching at least one selected skill. */
  lemma CandidatesMatch(roster: seq<Student>, sel: seq<string>)
    ensures Subseq(Candidates(roster, sel), roster)
    ensures forall st :: st in Candidates(roster, sel) <==> st in roster && MatchedCount(sel, st) > 0
  {
  }

  /** A matching student heading the roster heads the candidates. */
  lemma CandidatesKeep(x: Student, rest: seq<Student>, sel: seq<string>)
    requires MatchedCount(sel, x) > 0
    ensures Candidates([x] + rest, sel) == [x] + Candidates(rest, sel)
  {
    assert ([x] + rest)[1..] == rest;
  }

  /** A student heading the roster without a match is dropped. */
  lemma CandidatesSkip(x: Student, rest: seq<Student>, sel: seq<string>)
    requires MatchedCount(sel, x) == 0
    ensures Candidates([x] + rest, sel) == Candidates(rest, sel)
  {
    assert ([x] + rest)[1..] == rest;
  }

  /** A student matching a selected skill holds at least one skill. */
  lemma MatchedHasSkills(sel: seq<string>, st: Student)
    requires MatchedCount(sel, st) > 0
    ensures |st.skills| > 0 && AllAvg(st).Some?
  {
    var k := MatchedSkills(sel, st)[0];
    assert k in SkillNames(st.skills);
  }

  /** `handleSearch`: nothing for an empty selection, otherwise the matching
      students in ranked order. */
  function Rank(roster: seq<Student>, sel: seq<string>): (r: seq<Student>)
    ensures |sel| == 0 ==> r == []
    ensures multiset(r) == multiset(Candidates(roster, sel))
    ensures forall st :: st in r <==> st in roster && MatchedCount(sel, st) > 0
    ensures forall i :: 0 <= i < |r| ==> MatchedCount(sel, r[i]) > 0 && |r[i].skills| > 0
    ensures Ranked(sel, r)
  {
    if |sel| == 0 then []
    else
      var r := SortRanked(sel, Candidates(roster, sel));
      CandidatesMatch(roster, sel);
      assert forall st :: st in r <==> st in Candidates(roster, sel) by {
        assert forall st :: st in r <==> st in multiset(r);
      }
      forall i | 0 <= i < |r| ensures |r[i].skills| > 0 {
        assert r[i] in r;
        MatchedHasSkills(sel, r[i]);
      }
      r
  }

  /** Adjacent comparator order forces matched counts never to increase
      along the whole list. */
  lemma {:induction false} RankedCountsNonIncreasing(sel: seq<string>, s: seq<Student>, i: int, j: int)
    requires Ranked(sel, s)
    requires 0 <= i <= j < |s|
    ensures MatchedCount(sel, s[i]) >= MatchedCount(sel, s[j])
    decreases j - i
  {
    if i < j {
      RankedCountsNonIncreasing(sel, s, i + 1, j);
      CmpCounts(sel, s[i], s[i + 1]);
    }
  }

  /** The comparator never puts a student with fewer matches first. */
  lemma CmpCounts(sel: seq<string>, a: Student, b: Student)
    ensures Cmp(sel, a, b) <= 0 ==> MatchedCount(sel, a) >= MatchedCount(sel, b)
  {
  }

  /** The order of the ranking, key by key: counts never increase; a pair
      with equal counts and means more than 0.01 apart has the higher mean
      first; otherwise the higher overall mean comes first. */
  lemma RankOrder(roster: seq<Student>, sel: seq<string>)
    ensures var r := Rank(roster, sel);
      forall i, j :: 0 <= i < j < |r| ==> MatchedCount(sel, r[i]) >= MatchedCount(sel, r[j])
    ensures var r := Rank(roster, sel);
      forall i :: 0 <= i < |r| - 1 ==> MayPrecede(sel, r[i], r[i + 1])
  {
    var r := Rank(roster, sel);
    forall i, j | 0 <= i < j < |r| ensures MatchedCount(sel, r[i]) >= MatchedCount(sel, r[j]) {
      RankedCountsNonIncreasing(sel, r, i, j);
    }
    forall i | 0 <= i < |r| - 1 ensures MayPrecede(sel, r[i], r[i + 1]) {
      CmpMeaning(sel, r[i], r[i + 1]);
    }
  }

  /** A student with more matched skills is ranked above one with fewer,
      whatever their scores. */
  lemma MoreMatchesRankHigher(roster: seq<Student>, sel: seq<string>, i: int, j: int)
    requires 0 <= i < |Rank(roster, sel)| && 0 <= j < |Rank(roster, sel)|
    requires MatchedCount(sel, Rank(roster, sel)[i]) > MatchedCount(sel, Rank(roster, sel)[j])
    ensures i < j
  {
    if j <= i {
      RankedCountsNonIncreasing(sel, Rank(roster, sel), j, i);
    }
  }

  /** Over a student whose skill names are distinct, the searched skills
      number as many as the selected names the student holds. */
  lemma {:induction false} SearchedCount(skills: seq<Skill>, sel: seq<string>)
    requires NoDup(SkillNames(skills))
    ensures |SearchedSkills(skills, sel)| == |Elems(SkillNames(skills)) * Elems(sel)|
    decreases |skills|
  {
    if |skills| > 0 {
      var names := SkillNames(skills);
      assert names[1..] == SkillNames(skills[1..]);
      NoDupTail(names);
      SearchedCount(skills[1..], sel);
      SearchedCons(skills, sel);
      assert Elems(names) == {skills[0].name} + Elems(names[1..]);
      InterAddOne(skills[0].name, Elems(names[1..]), Elems(sel));
    }
  }

  /** The searched skills count the head when it is selected, then the rest. */
  lemma SearchedCons(skills: seq<Skill>, sel: seq<string>)
    requires |skills| > 0
    ensures |SearchedSkills(skills, sel)| ==
      (if skills[0].name in sel then 1 else 0) + |SearchedSkills(skills[1..], sel)|
  {
  }

  /** Adding a fresh element to a set grows its intersection with `b` by one
      exactly when `b` holds the element. */
  lemma InterAddOne<T>(x: T, a: set<T>, b: set<T>)
    requires x !in a
    ensures |({x} + a) * b| == |a * b| + (if x in b then 1 else 0)
  {
    if x in b {
      assert ({x} + a) * b == {x} + a * b;
    } else {
      assert ({x} + a) * b == a * b;
    }
  }

  /** The searched skills' names are the matched skills. */
  lemma SearchedNamesAreMatched(sel: seq<string>, st: Student)
    ensures Elems(SkillNames(SearchedSkills(st.skills, sel))) == Elems(MatchedSkills(sel, st))
  {
    var hits := SearchedSkills(st.skills, sel);
    forall k | k in Elems(SkillNames(hits)) ensures k in Elems(MatchedSkills(sel, st)) {
      var i :| 0 <= i < |hits| && SkillNames(hits)[i] == k;
      assert hits[i] in hits;
      assert hits[i].name in SkillNames(st.skills) by {
        var j :| 0 <= j < |st.skills| && st.skills[j] == hits[i];
        assert SkillNames(st.skills)[j] == k;
      }
    }
    forall k | k in Elems(MatchedSkills(sel, st)) ensures k in Elems(SkillNames(hits)) {
      var j :| 0 <= j < |st.skills| && SkillNames(st.skills)[j] == k;
      assert st.skills[j] in hits;
      var i :| 0 <= i < |hits| && hits[i] == st.skills[j];
      assert SkillNames(hits)[i] == k;
    }
  }

  /** With a duplicate-free selection and duplicate-free skill names,
      `matchedSkillsCount` is the number of scores averaged, and those are
      the scores of exactly the matched skills. */
  lemma MatchedCountIsAveragedCount(sel: seq<string>, st: Student)
    requires NoDup(sel) && NoDup(SkillNames(st.skills))
    ensures MatchedCount(sel, st) == |SearchedSkills(st.skills, sel)|
    ensures Elems(SkillNames(SearchedSkills(st.skills, sel))) == Elems(MatchedSkills(sel, st))
  {
    var m := MatchedSkills(sel, st);
    var names := SkillNames(st.skills);
    NoDupCard(m);
    assert Elems(m) == Elems(names) * Elems(sel) by {
      forall k ensures k in Elems(m) <==> k in Elems(names) * Elems(sel) {
        assert k in m <==> k in sel && k in names;
      }
    }
    SearchedCount(st.skills, sel);
    SearchedNamesAreMatched(sel, st);
  }

  lemma MeanBounds(total: int, n: int, lo: int, hi: int)
    requires n > 0 && n * lo <= total <= n * hi
    ensures lo as real <= total as real / n as real <= hi as real
  {
    var x, k := total as real, n as real;
    assert k * lo as real <= x <= k * hi as real;
    assert x / k * k == x;
  }

  /** A student matching a selected skill has a matched-skill mean that
      lies within the range of the student's scores. */
  lemma AvgSearchedWithin(sel: seq<string>, st: Student, lo: int, hi: int)
    requires MatchedCount(sel, st) > 0
    requires ScoresWithin(st.skills, lo, hi)
    ensures lo as real <= Value(AvgSearched(sel, st)) <= hi as real
  {
    var hits := SearchedSkills(st.skills, sel);
    var k := MatchedSkills(sel, st)[0];
    assert k in SkillNames(st.skills);
    var j :| 0 <= j < |st.skills| && SkillNames(st.skills)[j] == k;
    assert st.skills[j] in hits;
    assert ScoresWithin(hits, lo, hi) by {
      forall i | 0 <= i < |hits| ensures lo <= hits[i].score <= hi {
        assert hits[i] in st.skills;
      }
    }
    ScoreSumBounds(hits, lo, hi);
    MeanBounds(ScoreSum(hits), |hits|, lo, hi);
  }
}
