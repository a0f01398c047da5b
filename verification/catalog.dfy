/**
 The skill catalogue shown as chips on the search and review pages:
 `Array.from(new Set(names)).sort()`, the distinct names in ascending order.
 */
module Catalog {
  import opened Seqs
  import opened Strings

  /** Every earlier entry sorts strictly before every later one. */
  predicate StrictlyAscending(s: seq<string>)
  {
    forall i, j :: 0 <= i < j < |s| ==> Less(s[i], s[j])
  }

  lemma StrictlyAscendingNoDup(s: seq<string>)
    requires StrictlyAscending(s)
    ensures NoDup(s)
  {
    forall i, j | 0 <= i < j < |s| ensures s[i] != s[j] {
      LessIrreflexive(s[i]);
    }
  }

  /** Places `x` into an ascending list unless it is already there. */
  function InsertSorted(x: string, s: seq<string>): (r: seq<string>)
    requires StrictlyAscending(s)
    ensures StrictlyAscending(r)
    ensures Elems(r) == Elems(s) + {x}
  {
    if |s| == 0 then [x]
    else if x == s[0] then s
    else if Less(x, s[0]) then
      assert StrictlyAscending([x] + s) by {
        forall j | 0 < j < |[x] + s| ensures Less(x, ([x] + s)[j]) {
          if j > 1 {
            LessTransitive(x, s[0], s[j - 1]);
          }
        }
      }
      [x] + s
    else
      LessTotal(x, s[0]);
      var rest := InsertSorted(x, s[1..]);
      assert Elems(s[1..]) + {x} == Elems(rest);
      assert StrictlyAscending([s[0]] + rest) by {
        forall j | 0 < j < |[s[0]] + rest| ensures Less(s[0], ([s[0]] + rest)[j]) {
          var y := rest[j - 1];
          assert y in Elems(rest);
        }
      }
      assert Elems(s) == {s[0]} + Elems(s[1..]);
      assert Elems([s[0]] + rest) == {s[0]} + Elems(rest);
      [s[0]] + rest
  }

  /** The distinct entries of `names` in ascending order. */
  function SortedDistinct(names: seq<string>): (r: seq<string>)
    ensures StrictlyAscending(r)
    ensures Elems(r) == Elems(names)
  {
    if |names| == 0 then []
    else
      var init := names[..|names| - 1];
      assert names == init + [names[|names| - 1]];
      assert Elems(names) == Elems(init) + {names[|names| - 1]};
      InsertSorted(names[|names| - 1], SortedDistinct(init))
  }

  /** The head of an ascending list sorts before all its other entries,
      and the tail holds exactly the rest. */
  lemma HeadLeast(s: seq<string>)
    requires StrictlyAscending(s) && |s| > 0
    ensures forall y :: y in Elems(s) ==> y == s[0] || Less(s[0], y)
    ensures Elems(s[1..]) == Elems(s) - {s[0]}
  {
    StrictlyAscendingNoDup(s);
    assert s == [s[0]] + s[1..];
    NoDupTail(s);
  }

  /** An ascending, duplicate-free listing of a set is unique: whatever
      order the names were collected in, the catalogue is the same list. */
  lemma {:induction false} AscendingUnique(a: seq<string>, b: seq<string>)
    requires StrictlyAscending(a) && StrictlyAscending(b)
    requires Elems(a) == Elems(b)
    ensures a == b
    decreases |a|
  {
    StrictlyAscendingNoDup(a);
    StrictlyAscendingNoDup(b);
    NoDupCard(a);
    NoDupCard(b);
    if |a| > 0 {
      HeadLeast(a);
      HeadLeast(b);
      if a[0] != b[0] {
        assert b[0] in Elems(a) && a[0] in Elems(b);
        LessAsymmetric(a[0], b[0]);
        assert false;
      }
      AscendingUnique(a[1..], b[1..]);
      assert a == [a[0]] + a[1..] && b == [b[0]] + b[1..];
    }
  }

  /** The catalogue of a list of names is the one ascending listing of the
      distinct names. */
  lemma CatalogCharacterised(names: seq<string>, listing: seq<string>)
    requires StrictlyAscending(listing) && Elems(listing) == Elems(names)
    ensures SortedDistinct(names) == listing
  {
    AscendingUnique(SortedDistinct(names), listing);
  }
}
