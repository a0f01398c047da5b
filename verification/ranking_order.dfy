/**
 The search ranking on ordinary input: a duplicate-free selection of fewer
 than a hundred skills, and candidates whose skill names are distinct.

 Scores are integers throughout the model. Two candidates with equal
 matched counts then average the same number `n < 100` of integer
 scores, so their means are either equal or at least `1 / n > 0.01`
 apart: the tolerance test is plain inequality. The
 comparator is then a total preorder on the three keys. The ranking is
 ordered pairwise, students with equal keys keep their roster order, and
 these two facts with the permutation determine the ranking: every
 stable sort that the comparator drives returns the same list.
 */
module RankingOrder {
  import opened Seqs
  import opened Types
  import opened Ranking

  /** A selection the chips produce (no skill twice) that is short enough
      for the tolerance never to merge two different means. */
  predicate OrdinarySelection(sel: seq<string>)
  {
    NoDup(sel) && |sel| < ToleranceDenominator
  }

  /** A candidate whose skill names are distinct. */
  predicate Ordinary(sel: seq<string>, st: Student)
  {
    MatchedCount(sel, st) > 0 && NoDup(SkillNames(st.skills))
  }

  /** The overall mean of a student holding a skill (every candidate does). */
  function Overall(st: Student): real
  {
    match AllAvg(st)
    case Some(x) => Value(x)
    case None => 0.0
  }

  /** The three keys with no tolerance: more matches first, then the higher
      matched-skill mean, then the higher overall mean. */
  predicate KeyPrecedes(sel: seq<string>, a: Student, b: Student)
  {
    var ca, cb := MatchedCount(sel, a), MatchedCount(sel, b);
    var va, vb := Value(AvgSearched(sel, a)), Value(AvgSearched(sel, b));
    || ca > cb
    || (ca == cb && va > vb)
    || (ca == cb && va == vb && Overall(a) >= Overall(b))
  }

  lemma KeyPrecedesTotal(sel: seq<string>, a: Student, b: Student)
    ensures KeyPrecedes(sel, a, b) || KeyPrecedes(sel, b, a)
  {
  }

  lemma KeyPrecedesTransitive(sel: seq<string>, a: Student, b: Student, c: Student)
    requires KeyPrecedes(sel, a, b) && KeyPrecedes(sel, b, c)
    ensures KeyPrecedes(sel, a, c)
  {
  }

  /** Two means over the same number `n < 100` of scores are more than
      0.01 apart exactly when their sums differ. */
  lemma SameCountDiffer(k1: int, k2: int, n: Pos)
    requires n < ToleranceDenominator
    ensures Differ(Ratio(k1, n), Ratio(k2, n)) <==> k1 != k2
  {
    ScaledDistance(k1, k2, n);
    if k1 != k2 {
      AboveSquare(Abs(k1 - k2), n);
    }
  }

  lemma ScaledDistance(k1: int, k2: int, n: Pos)
    ensures Abs(k1 * n - k2 * n) == Abs(k1 - k2) * n
  {
    assert k1 * n - k2 * n == (k1 - k2) * n;
  }

  /** A positive whole multiple of `n`, scaled by the tolerance, exceeds `n * n`. */
  lemma AboveSquare(e: int, n: Pos)
    requires e >= 1 && n < ToleranceDenominator
    ensures e * n * ToleranceDenominator > n * n
  {
    assert e * n >= n by {
      assert e * n - n == (e - 1) * n;
    }
    assert n * ToleranceDenominator > n * n;
  }

  /** Means over the same number of scores are equal exactly when their
      sums are. */
  lemma SameCountValue(k1: int, k2: int, n: Pos)
    ensures Value(Ratio(k1, n)) == Value(Ratio(k2, n)) <==> k1 == k2
  {
    var p := n as real;
    assert Value(Ratio(k1, n)) * p == k1 as real;
    assert Value(Ratio(k2, n)) * p == k2 as real;
  }

  /** An ordinary candidate's matched-skill mean averages exactly its
      matched count of scores, fewer than a hundred. */
  lemma AveragedCount(sel: seq<string>, st: Student)
    requires OrdinarySelection(sel) && Ordinary(sel, st)
    ensures AvgSearched(sel, st).den == MatchedCount(sel, st) < ToleranceDenominator
  {
    MatchedCountIsAveragedCount(sel, st);
  }

  /** Between ordinary candidates with equal counts the tolerance test is
      inequality of the means. */
  lemma ToleranceIsInequality(sel: seq<string>, a: Student, b: Student)
    requires OrdinarySelection(sel) && Ordinary(sel, a) && Ordinary(sel, b)
    requires MatchedCount(sel, a) == MatchedCount(sel, b)
    ensures RealAbs(Value(AvgSearched(sel, a)) - Value(AvgSearched(sel, b))) > 0.01
        <==> Value(AvgSearched(sel, a)) != Value(AvgSearched(sel, b))
  {
    var ma, mb := AvgSearched(sel, a), AvgSearched(sel, b);
    AveragedCount(sel, a);
    AveragedCount(sel, b);
    SameCountDiffer(ma.num, mb.num, ma.den);
    SameCountValue(ma.num, mb.num, ma.den);
    DifferMeaning(ma, mb);
    assert 1.0 / ToleranceDenominator as real == 0.01;
  }

  /** On ordinary candidates the comparator is exactly the key order. */
  lemma CmpIsKeyOrder(sel: seq<string>, a: Student, b: Student)
    requires OrdinarySelection(sel) && Ordinary(sel, a) && Ordinary(sel, b)
    ensures Cmp(sel, a, b) <= 0 <==> KeyPrecedes(sel, a, b)
  {
    CmpMeaning(sel, a, b);
    MatchedHasSkills(sel, a);
    MatchedHasSkills(sel, b);
    if MatchedCount(sel, a) == MatchedCount(sel, b) {
      ToleranceIsInequality(sel, a, b);
    }
  }

  /** Every student is tied with itself. */
  lemma CmpReflexive(sel: seq<string>, a: Student)
    ensures Cmp(sel, a, a) == 0
  {
    CmpAntisymmetric(sel, a, a);
  }

  lemma CmpTransitive(sel: seq<string>, a: Student, b: Student, c: Student)
    requires OrdinarySelection(sel) && Ordinary(sel, a) && Ordinary(sel, b) && Ordinary(sel, c)
    requires Cmp(sel, a, b) <= 0 && Cmp(sel, b, c) <= 0
    ensures Cmp(sel, a, c) <= 0
  {
    CmpIsKeyOrder(sel, a, b);
    CmpIsKeyOrder(sel, b, c);
    CmpIsKeyOrder(sel, a, c);
    KeyPrecedesTransitive(sel, a, b, c);
  }

  /** The comparator returns 0: neither student is to stand first. */
  predicate Tied(sel: seq<string>, a: Student, b: Student)
  {
    Cmp(sel, a, b) == 0
  }

  /** Ties between ordinary candidates are transitive. */
  lemma TiedTransitive(sel: seq<string>, a: Student, b: Student, c: Student)
    requires OrdinarySelection(sel) && Ordinary(sel, a) && Ordinary(sel, b) && Ordinary(sel, c)
    ensures Tied(sel, a, b) && Tied(sel, b, c) ==> Tied(sel, a, c)
  {
    CmpAntisymmetric(sel, a, b);
    CmpAntisymmetric(sel, b, c);
    CmpAntisymmetric(sel, a, c);
    if Tied(sel, a, b) && Tied(sel, b, c) {
      CmpTransitive(sel, a, b, c);
      CmpTransitive(sel, c, b, a);
    }
  }

  /** Every earlier student may stand before every later one. */
  predicate Sorted(sel: seq<string>, s: seq<Student>)
  {
    forall i, j :: 0 <= i < j < |s| ==> Cmp(sel, s[i], s[j]) <= 0
  }

  /** The test "tied with `y`". */
  function TieWith(sel: seq<string>, y: Student): Student -> bool
  {
    z => Tied(sel, z, y)
  }

  /** The students of `s` tied with `y`, in their order in `s`. */
  function TiesOf(sel: seq<string>, s: seq<Student>, y: Student): seq<Student>
  {
    Filter(s, TieWith(sel, y))
  }

  /** Two optional single students commute when at most one is present. */
  lemma SwapOptional(t: seq<Student>, x: Student, tx: bool, w: Student, tw: bool)
    requires !(tx && tw)
    ensures t + (if tx then [x] else []) + (if tw then [w] else [])
         == t + (if tw then [w] else []) + (if tx then [x] else [])
  {
  }

  /** A student the comparator puts after `x` is not tied with anything `x`
      is tied with. */
  lemma AfterNotTied(sel: seq<string>, x: Student, w: Student, y: Student)
    requires OrdinarySelection(sel) && Ordinary(sel, x) && Ordinary(sel, w) && Ordinary(sel, y)
    requires Cmp(sel, w, x) > 0
    ensures !(Tied(sel, x, y) && Tied(sel, w, y))
  {
    CmpAntisymmetric(sel, x, y);
    TiedTransitive(sel, w, y, x);
  }

  /** One insertion step is stable: the inserted student lands after every
      student tied with it. */
  lemma {:induction false} InsertTies(sel: seq<string>, x: Student, sorted: seq<Student>, y: Student)
    requires OrdinarySelection(sel) && Ordinary(sel, x) && Ordinary(sel, y)
    requires forall z :: z in sorted ==> Ordinary(sel, z)
    ensures TiesOf(sel, InsertRanked(sel, x, sorted), y) == TiesOf(sel, sorted, y) + (if Tied(sel, x, y) then [x] else [])
    decreases |sorted|
  {
    var t := TieWith(sel, y);
    assert t(x) == Tied(sel, x, y);
    if |sorted| == 0 {
      assert InsertRanked(sel, x, sorted) == [] + [x];
      FilterSnoc([], x, t);
    } else {
      var init, last := sorted[..|sorted| - 1], sorted[|sorted| - 1];
      assert sorted == init + [last];
      if Cmp(sel, last, x) > 0 {
        var front := InsertRanked(sel, x, init);
        assert InsertRanked(sel, x, sorted) == front + [last];
        assert forall z :: z in init ==> z in sorted;
        InsertTies(sel, x, init, y);
        FilterSnoc(front, last, t);
        FilterSnoc(init, last, t);
        assert !(t(x) && t(last)) by {
          assert last in sorted;
          AfterNotTied(sel, x, last, y);
        }
        SwapOptional(Filter(init, t), x, t(x), last, t(last));
      } else {
        assert InsertRanked(sel, x, sorted) == sorted + [x];
        FilterSnoc(sorted, x, t);
      }
    }
  }

  /** The insertion sort is stable. */
  lemma {:induction false} SortTies(sel: seq<string>, s: seq<Student>, y: Student)
    requires OrdinarySelection(sel) && Ordinary(sel, y)
    requires forall z :: z in s ==> Ordinary(sel, z)
    ensures TiesOf(sel, SortRanked(sel, s), y) == TiesOf(sel, s, y)
    decreases |s|
  {
    if |s| > 0 {
      var init, last := s[..|s| - 1], s[|s| - 1];
      assert s == init + [last];
      assert last in s;
      SortTies(sel, init, y);
      var sorted := SortRanked(sel, init);
      assert SortRanked(sel, s) == InsertRanked(sel, last, sorted);
      forall z | z in sorted ensures Ordinary(sel, z) {
        assert z in multiset(sorted);
        assert z in init;
      }
      InsertTies(sel, last, sorted, y);
      FilterSnoc(init, last, TieWith(sel, y));
    }
  }

  /** A list in which every adjacent pair is related by a reflexive and
      transitive relation is related across every pair. */
  lemma {:induction false} ChainOrdered<T>(s: seq<T>, le: (T, T) -> bool, i: int, j: int)
    requires forall k :: 0 <= k < |s| - 1 ==> le(s[k], s[k + 1])
    requires forall k :: 0 <= k < |s| ==> le(s[k], s[k])
    requires forall a, b, c :: a in s && b in s && c in s && le(a, b) && le(b, c) ==> le(a, c)
    requires 0 <= i <= j < |s|
    ensures le(s[i], s[j])
    decreases j - i
  {
    if i < j {
      ChainOrdered(s, le, i + 1, j);
      assert s[i] in s && s[i + 1] in s && s[j] in s;
    }
  }

  /** The test "may stand before", as a relation. */
  function Precedes(sel: seq<string>): (Student, Student) -> bool
  {
    (a, b) => Cmp(sel, a, b) <= 0
  }

  /** Adjacent comparator order extends to every pair of ordinary candidates. */
  lemma RankedIsSorted(sel: seq<string>, s: seq<Student>)
    requires OrdinarySelection(sel) && Ranked(sel, s)
    requires forall z :: z in s ==> Ordinary(sel, z)
    ensures Sorted(sel, s)
  {
    var le := Precedes(sel);
    forall k | 0 <= k < |s| ensures le(s[k], s[k]) {
      CmpReflexive(sel, s[k]);
    }
    forall a, b, c | a in s && b in s && c in s && le(a, b) && le(b, c) ensures le(a, c) {
      CmpTransitive(sel, a, b, c);
    }
    forall i, j | 0 <= i < j < |s| ensures Cmp(sel, s[i], s[j]) <= 0 {
      ChainOrdered(s, le, i, j);
    }
  }

  /** Dropping the students matching no selected skill keeps every tie
      class of an ordinary candidate. */
  lemma TiesOfCandidates(roster: seq<Student>, sel: seq<string>, y: Student)
    requires Ordinary(sel, y)
    ensures TiesOf(sel, Candidates(roster, sel), y) == TiesOf(sel, roster, y)
  {
    var t := TieWith(sel, y);
    forall x | x in roster && t(x) ensures Matches(sel)(x) {
      CmpAntisymmetric(sel, x, y);
      CmpCounts(sel, y, x);
    }
    FilterAbsorbs(roster, Matches(sel), t);
  }

  /** Every candidate of a roster whose students have distinct skill names
      is ordinary. */
  lemma CandidatesOrdinary(roster: seq<Student>, sel: seq<string>)
    requires forall st :: st in roster ==> NoDup(SkillNames(st.skills))
    ensures forall z :: z in Candidates(roster, sel) ==> Ordinary(sel, z)
  {
    CandidatesMatch(roster, sel);
  }

  /** On ordinary input the ranking is ordered by the keys across every
      pair, not only adjacent ones. */
  lemma RankOrdered(roster: seq<Student>, sel: seq<string>)
    requires OrdinarySelection(sel)
    requires forall st :: st in roster ==> NoDup(SkillNames(st.skills))
    ensures var r := Rank(roster, sel);
      forall i, j :: 0 <= i < j < |r| ==> KeyPrecedes(sel, r[i], r[j])
  {
    var r := Rank(roster, sel);
    assert forall z :: z in r ==> Ordinary(sel, z);
    RankedIsSorted(sel, r);
    forall i, j | 0 <= i < j < |r| ensures KeyPrecedes(sel, r[i], r[j]) {
      CmpIsKeyOrder(sel, r[i], r[j]);
    }
  }

  /** On ordinary input the ranking is stable: students tied with any
      candidate appear in their roster order. */
  lemma RankStable(roster: seq<Student>, sel: seq<string>, y: Student)
    requires OrdinarySelection(sel) && Ordinary(sel, y)
    requires forall st :: st in roster ==> NoDup(SkillNames(st.skills))
    ensures TiesOf(sel, Rank(roster, sel), y) == TiesOf(sel, roster, y)
  {
    assert |sel| > 0 by {
      assert MatchedCount(sel, y) <= |sel|;
    }
    CandidatesOrdinary(roster, sel);
    SortTies(sel, Candidates(roster, sel), y);
    TiesOfCandidates(roster, sel, y);
  }

  /** The heads of two sorted lists holding the same students are tied:
      each stands before or with the other. */
  lemma HeadsTied(sel: seq<string>, a: seq<Student>, b: seq<Student>)
    requires |a| > 0 && multiset(a) == multiset(b)
    requires Sorted(sel, a) && Sorted(sel, b)
    ensures |b| > 0 && Tied(sel, b[0], a[0])
  {
    assert a[0] in multiset(b);
    var k :| 0 <= k < |b| && b[k] == a[0];
    assert b[0] in multiset(a);
    var m :| 0 <= m < |a| && a[m] == b[0];
    CmpReflexive(sel, a[0]);
    CmpAntisymmetric(sel, a[0], b[0]);
    if k > 0 {
      assert Cmp(sel, b[0], b[k]) <= 0;
    }
    if m > 0 {
      assert Cmp(sel, a[0], a[m]) <= 0;
    }
  }

  /** Tied heads of lists with the same tie classes are the same student:
      each is the first of the head's own tie class. */
  lemma TiedHeadsEqual(sel: seq<string>, a: seq<Student>, b: seq<Student>)
    requires |a| > 0 && |b| > 0 && Tied(sel, b[0], a[0])
    requires TiesOf(sel, a, a[0]) == TiesOf(sel, b, a[0])
    ensures a[0] == b[0]
  {
    var t := TieWith(sel, a[0]);
    assert t(a[0]) by {
      CmpReflexive(sel, a[0]);
    }
    FilterSameHead(a, b, t);
  }

  lemma SameTailMultiset<T>(a: seq<T>, b: seq<T>)
    requires |a| > 0 && |b| > 0 && a[0] == b[0] && multiset(a) == multiset(b)
    ensures multiset(a[1..]) == multiset(b[1..])
  {
    assert a == [a[0]] + a[1..];
    assert b == [b[0]] + b[1..];
    assert multiset(a[1..]) == multiset(a) - multiset{a[0]};
    assert multiset(b[1..]) == multiset(b) - multiset{b[0]};
  }

  lemma SortedTail(sel: seq<string>, s: seq<Student>)
    requires |s| > 0 && Sorted(sel, s)
    ensures Sorted(sel, s[1..])
  {
    forall i, j | 0 <= i < j < |s| - 1 ensures Cmp(sel, s[1..][i], s[1..][j]) <= 0 {
      assert s[1..][i] == s[i + 1] && s[1..][j] == s[j + 1];
    }
  }

  /** Two lists holding the same ordinary candidates, both sorted and with
      every tie class in the same order, are equal. */
  lemma {:induction false} StableSortUnique(sel: seq<string>, a: seq<Student>, b: seq<Student>)
    requires forall z :: z in a ==> Ordinary(sel, z)
    requires multiset(a) == multiset(b)
    requires Sorted(sel, a) && Sorted(sel, b)
    requires forall y :: Ordinary(sel, y) ==> TiesOf(sel, a, y) == TiesOf(sel, b, y)
    ensures a == b
    decreases |a|
  {
    assert |a| == |multiset(a)| == |b|;
    if |a| > 0 {
      var h := a[0];
      assert Ordinary(sel, h) by {
        assert h in a;
      }
      HeadsTied(sel, a, b);
      TiedHeadsEqual(sel, a, b);
      assert a == [h] + a[1..] && b == [h] + b[1..];
      forall y | Ordinary(sel, y) ensures TiesOf(sel, a[1..], y) == TiesOf(sel, b[1..], y) {
        FilterConsCancel(h, a[1..], b[1..], TieWith(sel, y));
      }
      SameTailMultiset(a, b);
      SortedTail(sel, a);
      SortedTail(sel, b);
      assert forall z :: z in a[1..] ==> z in a;
      StableSortUnique(sel, a[1..], b[1..]);
    }
  }

  /** On ordinary input the ranking is THE stable sort of the candidates:
      any permutation of them that is ordered by the comparator across
      every pair and keeps each tie class in roster order is the ranking,
      whichever algorithm produced it. */
  lemma RankIsTheStableSort(roster: seq<Student>, sel: seq<string>, other: seq<Student>)
    requires OrdinarySelection(sel)
    requires forall st :: st in roster ==> NoDup(SkillNames(st.skills))
    requires multiset(other) == multiset(Candidates(roster, sel))
    requires Sorted(sel, other)
    requires forall y :: Ordinary(sel, y) ==> TiesOf(sel, other, y) == TiesOf(sel, roster, y)
    ensures other == Rank(roster, sel)
  {
    var r := Rank(roster, sel);
    CandidatesOrdinary(roster, sel);
    forall z | z in other ensures Ordinary(sel, z) {
      assert z in multiset(Candidates(roster, sel));
    }
    assert forall z :: z in r ==> Ordinary(sel, z);
    RankedIsSorted(sel, r);
    forall y | Ordinary(sel, y) ensures TiesOf(sel, other, y) == TiesOf(sel, r, y) {
      RankStable(roster, sel, y);
    }
    StableSortUnique(sel, other, r);
  }
}
