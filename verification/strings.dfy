/**
 The string operations the pages rely on: the ordering used by the default
 `Array.prototype.sort`, `String.prototype.toLowerCase` restricted to ASCII,
 and `String.prototype.includes`.
 */
module Strings {

  /** `a` sorts strictly before `b`: character-by-character comparison, a
      proper prefix first (the default comparison of `sort()` on strings). */
  predicate Less(a: string, b: string)
    decreases |a|
  {
    |b| > 0 && (|a| == 0 || a[0] < b[0] || (a[0] == b[0] && Less(a[1..], b[1..])))
  }

  lemma {:induction false} LessIrreflexive(a: string)
    ensures !Less(a, a)
    decreases |a|
  {
    if |a| > 0 {
      LessIrreflexive(a[1..]);
    }
  }

  lemma {:induction false} LessTransitive(a: string, b: string, c: string)
    requires Less(a, b) && Less(b, c)
    ensures Less(a, c)
    decreases |a|
  {
    if |a| > 0 && a[0] == b[0] && b[0] == c[0] {
      LessTransitive(a[1..], b[1..], c[1..]);
    }
  }

  /** Any two distinct strings are ordered one way or the other. */
  lemma {:induction false} LessTotal(a: string, b: string)
    ensures a == b || Less(a, b) || Less(b, a)
    decreases |a|
  {
    if |a| > 0 && |b| > 0 && a[0] == b[0] {
      LessTotal(a[1..], b[1..]);
      if a[1..] == b[1..] {
        assert a == [a[0]] + a[1..] && b == [b[0]] + b[1..];
      }
    }
  }

  lemma {:induction false} LessAsymmetric(a: string, b: string)
    requires Less(a, b)
    ensures !Less(b, a)
    decreases |a|
  {
    if |a| > 0 && a[0] == b[0] {
      LessAsymmetric(a[1..], b[1..]);
    }
  }

  /** ASCII case folding of one character; everything else is unchanged. */
  function LowerChar(c: char): (r: char)
    ensures 'A' <= c <= 'Z' ==> 'a' <= r <= 'z' && r as int == c as int + 32
    ensures !('A' <= c <= 'Z') ==> r == c
  {
    if 'A' <= c <= 'Z' then (c as int + 32) as char else c
  }

  /** `toLowerCase()` on ASCII text. */
  function Lower(s: string): (r: string)
    ensures |r| == |s|
    ensures forall i :: 0 <= i < |s| ==> r[i] == LowerChar(s[i])
    ensures forall i :: 0 <= i < |r| ==> !('A' <= r[i] <= 'Z')
  {
    if |s| == 0 then [] else [LowerChar(s[0])] + Lower(s[1..])
  }

  predicate IsPrefix(p: string, s: string)
  {
    |p| <= |s| && s[..|p|] == p
  }

  /** `hay.includes(needle)`: `needle` occurs somewhere in `hay`. */
  predicate Includes(hay: string, needle: string)
    decreases |hay|
  {
    IsPrefix(needle, hay) || (|hay| > 0 && Includes(hay[1..], needle))
  }

  /** `needle` starts at some position of `hay`. */
  ghost predicate OccursIn(needle: string, hay: string)
  {
    exists i :: 0 <= i <= |hay| && IsPrefix(needle, hay[i..])
  }

  /** `Includes` holds exactly when `needle` starts at some position of `hay`. */
  lemma {:induction false} IncludesAt(hay: string, needle: string)
    ensures Includes(hay, needle) <==> OccursIn(needle, hay)
    decreases |hay|
  {
    if Includes(hay, needle) {
      if IsPrefix(needle, hay) {
        assert hay[0..] == hay;
      } else {
        IncludesAt(hay[1..], needle);
        var i :| 0 <= i <= |hay[1..]| && IsPrefix(needle, hay[1..][i..]);
        assert hay[1..][i..] == hay[i + 1..];
      }
    }
    if exists i :: 0 <= i <= |hay| && IsPrefix(needle, hay[i..]) {
      var i :| 0 <= i <= |hay| && IsPrefix(needle, hay[i..]);
      if i > 0 {
        assert hay[1..][i - 1..] == hay[i..];
        IncludesAt(hay[1..], needle);
      }
    }
  }

  /** Every string includes the empty string (`"abc".includes("") === true`). */
  lemma IncludesEmpty(hay: string)
    ensures Includes(hay, "")
    ensures OccursIn("", hay)
  {
    assert IsPrefix("", hay[0..]);
  }
}
