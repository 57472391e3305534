/** `re.split(r'[.!?]+', s)`: the text is cut at every maximal run of
    sentence terminators; a run at either end leaves an empty segment there. */
module Runs {

  predicate IsTerminator(c: char) {
    c == '.' || c == '!' || c == '?'
  }

  predicate NoTerminator(s: string) {
    forall i :: 0 <= i < |s| ==> !IsTerminator(s[i])
  }

  /** The length of the leading stretch free of terminators. */
  function SegmentEnd(s: string): (n: nat)
    ensures n <= |s|
    ensures NoTerminator(s[..n])
    ensures n < |s| ==> IsTerminator(s[n])
  {
    if s == [] || IsTerminator(s[0]) then 0
    else
      var n := 1 + SegmentEnd(s[1..]);
      assert s[..n] == [s[0]] + s[1..][..n - 1];
      n
  }

  /** The length of the leading run of terminators; it is maximal. */
  function RunEnd(s: string): (m: nat)
    ensures m <= |s|
    ensures forall i :: 0 <= i < m ==> IsTerminator(s[i])
    ensures m < |s| ==> !IsTerminator(s[m])
  {
    if s == [] || !IsTerminator(s[0]) then 0 else 1 + RunEnd(s[1..])
  }

  /** Where the next segment starts: after the first segment and the whole
      run of terminators that ends it. */
  function NextStart(s: string): (m: nat)
    requires SegmentEnd(s) < |s|
    ensures SegmentEnd(s) < m <= |s|
    ensures forall i :: SegmentEnd(s) <= i < m ==> IsTerminator(s[i])
    ensures m < |s| ==> !IsTerminator(s[m])
  {
    var n := SegmentEnd(s);
    n + RunEnd(s[n..])
  }

  /** The segments `re.split(r'[.!?]+', s)` returns. None holds a terminator,
      and only the first and the last may be empty. */
  function SplitRuns(s: string): (parts: seq<string>)
    ensures |parts| >= 1
    ensures forall k :: 0 <= k < |parts| ==> NoTerminator(parts[k])
    ensures |s| > 0 && !IsTerminator(s[0]) ==> |parts[0]| > 0
    ensures forall k :: 0 < k < |parts| - 1 ==> |parts[k]| > 0
    decreases |s|
  {
    var n := SegmentEnd(s);
    if n == |s| then
      assert s[..n] == s;
      [s]
    else
      var m := NextStart(s);
      var t := SplitRuns(s[m..]);
      assert |t| > 1 ==> |s[m..]| > 0 && !IsTerminator(s[m..][0]);
      [s[..n]] + t
  }

  /** The maximal runs of terminators the split cuts at, in order. */
  function Delims(s: string): (runs: seq<string>)
    ensures forall k :: 0 <= k < |runs| ==> |runs[k]| > 0
    ensures forall k, i :: 0 <= k < |runs| && 0 <= i < |runs[k]| ==> IsTerminator(runs[k][i])
    decreases |s|
  {
    var n := SegmentEnd(s);
    if n == |s| then []
    else
      var m := NextStart(s);
      [s[n..m]] + Delims(s[m..])
  }

  /** There is one more segment than there are runs of terminators. */
  lemma {:induction false} SplitRunsCount(s: string)
    ensures |SplitRuns(s)| == |Delims(s)| + 1
    decreases |s|
  {
    if SegmentEnd(s) < |s| {
      SplitRunsCount(s[NextStart(s)..]);
    }
  }

  /** Segments and runs taken alternately, starting and ending with a segment. */
  function Interleave(parts: seq<string>, runs: seq<string>): string
    requires |parts| == |runs| + 1
  {
    if runs == [] then parts[0] else parts[0] + runs[0] + Interleave(parts[1..], runs[1..])
  }

  lemma SliceThree(s: string, n: nat, m: nat)
    requires n <= m <= |s|
    ensures s == s[..n] + s[n..m] + s[m..]
  {
  }

  /** Putting the runs back between the segments gives back the text. */
  lemma {:induction false} SplitRunsRoundTrip(s: string)
    ensures |SplitRuns(s)| == |Delims(s)| + 1
    ensures Interleave(SplitRuns(s), Delims(s)) == s
    decreases |s|
  {
    SplitRunsCount(s);
    var n := SegmentEnd(s);
    if n == |s| {
      assert s[..n] == s;
    } else {
      var m := NextStart(s);
      var t := s[m..];
      var parts, runs := SplitRuns(s), Delims(s);
      assert parts == [s[..n]] + SplitRuns(t);
      assert runs == [s[n..m]] + Delims(t);
      SplitRunsRoundTrip(t);
      assert parts[1..] == SplitRuns(t) && runs[1..] == Delims(t);
      assert Interleave(parts, runs) == s[..n] + s[n..m] + Interleave(SplitRuns(t), Delims(t));
      SliceThree(s, n, m);
    }
  }
}
