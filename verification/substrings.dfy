/** Python's `str.count(w)` and `str.split(sep)`: both scan left to right
    and, after a match, resume right after it, so matches never overlap. */
module Substrings {

  /** `w` occurs in `s` starting at position `i`. */
  predicate OccursAt(s: string, w: string, i: nat) {
    i + |w| <= |s| && s[i..i + |w|] == w
  }

  /** `w in s` for strings. */
  predicate Contains(s: string, w: string) {
    exists i: nat :: i <= |s| && OccursAt(s, w, i)
  }

  /** `s.count(w)`: the number of leftmost non-overlapping occurrences of `w`;
      an empty `w` matches at each of the `|s| + 1` positions. The matches
      never overlap, so together they never take up more than `s`. */
  function Count(s: string, w: string): (n: nat)
    ensures n * |w| <= |s|
    decreases |s|
  {
    if |w| == 0 then |s| + 1
    else if |s| < |w| then 0
    else if s[..|w|] == w then
      var m := Count(s[|w|..], w);
      assert (1 + m) * |w| == |w| + m * |w|;
      1 + m
    else Count(s[1..], w)
  }

  lemma OccursAtShift(s: string, w: string, i: nat)
    requires |s| > 0
    ensures OccursAt(s[1..], w, i) <==> OccursAt(s, w, i + 1)
  {
    if i + |w| <= |s[1..]| {
      assert s[1..][i..i + |w|] == s[i + 1..i + 1 + |w|];
    }
  }

  /** A non-empty pattern is counted at least once exactly when it occurs. */
  lemma {:induction false} CountPositive(s: string, w: string)
    requires |w| > 0
    ensures Count(s, w) > 0 <==> Contains(s, w)
    decreases |s|
  {
    if |s| < |w| {
      assert !Contains(s, w);
    } else if s[..|w|] == w {
      assert OccursAt(s, w, 0);
    } else {
      CountPositive(s[1..], w);
      if Contains(s, w) {
        var i: nat :| OccursAt(s, w, i);
        assert i != 0;
        OccursAtShift(s, w, i - 1);
        assert Contains(s[1..], w);
      }
      if Contains(s[1..], w) {
        var i: nat :| OccursAt(s[1..], w, i);
        OccursAtShift(s, w, i);
      }
    }
  }

  /** `w` occurs at `i` and nowhere before. */
  predicate FirstOccurrence(s: string, w: string, i: nat) {
    OccursAt(s, w, i) && forall j: nat :: j < i ==> !OccursAt(s, w, j)
  }

  /** The count takes the leftmost occurrence and resumes the scan right
      after it. With `CountPositive` (no occurrence, count 0) this fixes the
      value of `Count` for every non-empty pattern. */
  lemma {:induction false} CountLeftmost(s: string, w: string, i: nat)
    requires |w| > 0
    requires FirstOccurrence(s, w, i)
    ensures Count(s, w) == 1 + Count(s[i + |w|..], w)
    decreases i
  {
    if i > 0 {
      CountSkip(s, w);
      forall j: nat | j < i - 1
        ensures !OccursAt(s[1..], w, j)
      {
        OccursAtShift(s, w, j);
      }
      OccursAtShift(s, w, i - 1);
      CountLeftmost(s[1..], w, i - 1);
      assert s[1..][i - 1 + |w|..] == s[i + |w|..];
    }
  }

  /** Without a match at the front, the scan moves on by one character. */
  lemma CountSkip(s: string, w: string)
    requires |w| > 0 && |s| > 0
    requires !OccursAt(s, w, 0)
    ensures Count(s, w) == Count(s[1..], w)
  {
    if |s| < |w| {
      assert Count(s[1..], w) == 0;
    }
  }

  /** `s.split(sep)` for a non-empty separator (Python raises `ValueError`
      on an empty one). The first segment is always a prefix of `s`. */
  function SplitOn(s: string, sep: string): (parts: seq<string>)
    requires |sep| > 0
    ensures |parts| >= 1
    ensures parts[0] <= s
    decreases |s|
  {
    if |s| < |sep| then [s]
    else if s[..|sep|] == sep then [[]] + SplitOn(s[|sep|..], sep)
    else
      var t := SplitOn(s[1..], sep);
      [[s[0]] + t[0]] + t[1..]
  }

  /** `sep.join(parts)`. */
  function Join(parts: seq<string>, sep: string): string
    requires |parts| >= 1
  {
    if |parts| == 1 then parts[0] else parts[0] + sep + Join(parts[1..], sep)
  }

  lemma JoinConsChar(c: char, t: seq<string>, sep: string)
    requires |t| >= 1
    ensures Join([[c] + t[0]] + t[1..], sep) == [c] + Join(t, sep)
  {
    var p := [[c] + t[0]] + t[1..];
    if |t| > 1 {
      assert p[1..] == t[1..];
    }
  }

  /** Joining the segments with the separator gives back the text. */
  lemma {:induction false} SplitOnJoin(s: string, sep: string)
    requires |sep| > 0
    ensures Join(SplitOn(s, sep), sep) == s
    decreases |s|
  {
    if |s| < |sep| {
    } else if s[..|sep|] == sep {
      SplitOnJoin(s[|sep|..], sep);
      var t := SplitOn(s[|sep|..], sep);
      assert ([[]] + t)[1..] == t;
      assert s == sep + s[|sep|..];
    } else {
      SplitOnJoin(s[1..], sep);
      JoinConsChar(s[0], SplitOn(s[1..], sep), sep);
      assert s == [s[0]] + s[1..];
    }
  }

  /** There is one more segment than there are counted occurrences. */
  lemma {:induction false} SplitOnCount(s: string, sep: string)
    requires |sep| > 0
    ensures |SplitOn(s, sep)| == Count(s, sep) + 1
    decreases |s|
  {
    if |s| < |sep| {
    } else if s[..|sep|] == sep {
      SplitOnCount(s[|sep|..], sep);
    } else {
      SplitOnCount(s[1..], sep);
    }
  }

  /** No segment contains the separator: every occurrence was cut at. */
  lemma {:induction false} SplitOnAvoidsSep(s: string, sep: string)
    requires |sep| > 0
    ensures forall k :: 0 <= k < |SplitOn(s, sep)| ==> !Contains(SplitOn(s, sep)[k], sep)
    decreases |s|
  {
    var parts := SplitOn(s, sep);
    if |s| < |sep| {
      assert !Contains(s, sep);
    } else if s[..|sep|] == sep {
      SplitOnAvoidsSep(s[|sep|..], sep);
      assert !Contains([], sep);
      assert forall k :: 1 <= k < |parts| ==> parts[k] == SplitOn(s[|sep|..], sep)[k - 1];
    } else {
      var t := SplitOn(s[1..], sep);
      SplitOnAvoidsSep(s[1..], sep);
      var head := [s[0]] + t[0];
      assert head[1..] == t[0];
      forall i: nat | i <= |head|
        ensures !OccursAt(head, sep, i)
      {
        if i == 0 {
          if |sep| <= |head| {
            assert head[..|sep|] == s[..|sep|];
          }
        } else {
          OccursAtShift(head, sep, i - 1);
        }
      }
      assert forall k :: 1 <= k < |parts| ==> parts[k] == t[k];
    }
  }

  /** Without a separator at the front, the first character joins the
      first segment of the rest. */
  lemma SplitOnSkip(s: string, sep: string)
    requires |sep| > 0 && |s| > 0
    requires !OccursAt(s, sep, 0)
    ensures SplitOn(s, sep) == [[s[0]] + SplitOn(s[1..], sep)[0]] + SplitOn(s[1..], sep)[1..]
  {
    if |s| < |sep| {
      assert SplitOn(s[1..], sep) == [s[1..]];
      assert [s[0]] + s[1..] == s;
    }
  }

  /** A text without the separator is not cut. */
  lemma {:induction false} SplitOnNoSep(s: string, sep: string)
    requires |sep| > 0
    requires !Contains(s, sep)
    ensures SplitOn(s, sep) == [s]
    decreases |s|
  {
    if |s| >= |sep| {
      assert !OccursAt(s, sep, 0);
      forall j: nat | j <= |s[1..]|
        ensures !OccursAt(s[1..], sep, j)
      {
        OccursAtShift(s, sep, j);
      }
      SplitOnNoSep(s[1..], sep);
      assert [s[0]] + s[1..] == s;
    }
  }

  /** The split cuts at the leftmost occurrence of the separator and goes on
      right after it. With `SplitOnNoSep` this fixes every segment. */
  lemma {:induction false} SplitOnLeftmost(s: string, sep: string, i: nat)
    requires |sep| > 0
    requires FirstOccurrence(s, sep, i)
    ensures SplitOn(s, sep) == [s[..i]] + SplitOn(s[i + |sep|..], sep)
    decreases i
  {
    if i > 0 {
      SplitOnSkip(s, sep);
      forall j: nat | j < i - 1
        ensures !OccursAt(s[1..], sep, j)
      {
        OccursAtShift(s, sep, j);
      }
      OccursAtShift(s, sep, i - 1);
      SplitOnLeftmost(s[1..], sep, i - 1);
      assert s[1..][i - 1 + |sep|..] == s[i + |sep|..];
      assert [s[0]] + s[1..][..i - 1] == s[..i];
    } else {
      assert s[..|sep|] == sep;
    }
  }
}
