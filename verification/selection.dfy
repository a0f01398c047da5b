/**
 The skill selection of the search and review pages: an ordered list of
 chosen skill names that a chip click toggles.
 */
module Selection {
  import opened Seqs

  /** A chip click: a selected skill is deselected, an unselected one is
      appended at the end. */
  function Toggle(sel: seq<string>, skill: string): (r: seq<string>)
    ensures skill in r <==> skill !in sel
    ensures forall k :: k != skill ==> (k in r <==> k in sel)
    ensures skill !in sel ==> r == sel + [skill]
    ensures skill in sel ==> Subseq(r, sel) && |r| < |sel|
    ensures NoDup(sel) ==> NoDup(r)
    ensures NoDup(sel) ==> |r| == if skill in sel then |sel| - 1 else |sel| + 1
  {
    if skill in sel then
      var r := RemoveAll(sel, skill);
      assert |r| < |sel| by {
        SubseqShorter(r, sel, skill);
      }
      r
    else
      var r := sel + [skill];
      assert NoDup(sel) ==> NoDup(r);
      r
  }

  /** A subsequence that misses an element of the whole is strictly shorter. */
  lemma {:induction false} SubseqShorter(a: seq<string>, b: seq<string>, x: string)
    requires Subseq(a, b) && x in b && x !in a
    ensures |a| < |b|
    decreases |b|
  {
    if |a| > 0 {
      if a[0] == b[0] && Subseq(a[1..], b[1..]) {
        assert x in b[1..] by {
          assert a[0] in a;
        }
        assert x !in a[1..] by {
          assert forall y :: y in a[1..] ==> y in a;
        }
        SubseqShorter(a[1..], b[1..], x);
      } else {
        SubseqLength(a, b[1..]);
      }
    }
  }

  lemma {:induction false} SubseqLength(a: seq<string>, b: seq<string>)
    requires Subseq(a, b)
    ensures |a| <= |b|
    decreases |b|
  {
    if |a| > 0 {
      if a[0] == b[0] && Subseq(a[1..], b[1..]) {
        SubseqLength(a[1..], b[1..]);
      } else {
        SubseqLength(a, b[1..]);
      }
    }
  }

  /** Toggling an unselected skill twice gives back exactly the same list. */
  lemma ToggleTwiceRestores(sel: seq<string>, skill: string)
    requires skill !in sel
    ensures Toggle(Toggle(sel, skill), skill) == sel
  {
    assert skill in sel + [skill];
    RemoveAllAppended(sel, skill);
  }
}
