/** Character classes shared by every statistic: whitespace as Python's
    `str.isspace` and the `\s` class of `re` see it, the `\w` word class,
    and `str.lower()`. Whitespace is exact; the word class and lowercasing
    are modelled on ASCII only (see README). */
module Chars {

  /** The complete set of code points for which Python's `str.isspace` holds;
      `re`'s `\s`, `str.split()` and `str.strip()` all use this set. */
  predicate IsSpace(c: char) {
    var n := c as int;
    || n == 0x20
    || 0x09 <= n <= 0x0D
    || 0x1C <= n <= 0x1F
    || n == 0x85
    || n == 0xA0
    || n == 0x1680
    || 0x2000 <= n <= 0x200A
    || n == 0x2028
    || n == 0x2029
    || n == 0x202F
    || n == 0x205F
    || n == 0x3000
  }

  predicate IsUpper(c: char) {
    'A' <= c <= 'Z'
  }

  /** The `\w` class: letters, digits and underscore. */
  predicate IsWordChar(c: char) {
    'a' <= c <= 'z' || 'A' <= c <= 'Z' || '0' <= c <= '9' || c == '_'
  }

  /** `lower()` on one character: it never yields an upper-case letter,
      and it moves no character into or out of the word or space class. */
  function Lower(c: char): (d: char)
    ensures !IsUpper(d)
    ensures IsWordChar(d) <==> IsWordChar(c)
    ensures IsSpace(d) <==> IsSpace(c)
    ensures !IsUpper(c) ==> d == c
  {
    if IsUpper(c) then (c as int + 32) as char else c
  }

  /** `str.lower()`: length-preserving, character by character. */
  function Lowercase(s: string): (r: string)
    ensures |r| == |s|
    ensures forall i :: 0 <= i < |s| ==> r[i] == Lower(s[i])
  {
    if s == [] then [] else [Lower(s[0])] + Lowercase(s[1..])
  }

  /** The 26 ASCII letters in upper and in lower case; a letter's case
      partner stands at the same position in the other alphabet. */
  const UpperAlphabet: string := "ABCDEFGHIJKLMNOPQRSTUVWXYZ"
  const LowerAlphabet: string := "abcdefghijklmnopqrstuvwxyz"

  /** `u` is an upper-case letter and `l` its lower-case partner. */
  predicate CasePair(u: char, l: char) {
    exists k :: 0 <= k < |UpperAlphabet| && UpperAlphabet[k] == u && LowerAlphabet[k] == l
  }

  /** Two characters that differ at most in the case of a letter. */
  predicate SameIgnoringCase(c: char, d: char) {
    c == d || CasePair(c, d) || CasePair(d, c)
  }

  /** Two strings that differ at most in the case of their letters. */
  predicate SameTextIgnoringCase(s: string, t: string) {
    |s| == |t| && forall i :: 0 <= i < |s| ==> SameIgnoringCase(s[i], t[i])
  }

  lemma AlphabetCodes()
    ensures |UpperAlphabet| == 26 && |LowerAlphabet| == 26
    ensures forall k :: 0 <= k < 26 ==> UpperAlphabet[k] as int == 65 + k && LowerAlphabet[k] as int == 97 + k
  {
  }

  /** Lowercasing identifies two characters exactly when they differ at
      most in case: each upper-case letter goes to its own partner. */
  lemma LowerSameIgnoringCase(c: char, d: char)
    ensures Lower(c) == Lower(d) <==> SameIgnoringCase(c, d)
  {
    AlphabetCodes();
    if IsUpper(c) {
      assert UpperAlphabet[c as int - 65] == c;
    }
    if IsUpper(d) {
      assert UpperAlphabet[d as int - 65] == d;
    }
  }

  /** Lowercasing identifies two strings exactly when they differ at most in
      the case of their letters. */
  lemma LowercaseSameIgnoringCase(s: string, t: string)
    ensures Lowercase(s) == Lowercase(t) <==> SameTextIgnoringCase(s, t)
  {
    if Lowercase(s) == Lowercase(t) {
      forall i | 0 <= i < |s|
        ensures SameIgnoringCase(s[i], t[i])
      {
        LowerSameIgnoringCase(s[i], t[i]);
      }
    }
    if SameTextIgnoringCase(s, t) {
      forall i | 0 <= i < |s|
        ensures Lowercase(s)[i] == Lowercase(t)[i]
      {
        LowerSameIgnoringCase(s[i], t[i]);
      }
    }
  }

  /** Lowercasing twice is lowercasing once. */
  lemma LowercaseIdempotent(s: string)
    ensures Lowercase(Lowercase(s)) == Lowercase(s)
  {
    var r := Lowercase(s);
    assert forall i :: 0 <= i < |r| ==> Lowercase(r)[i] == r[i];
  }

  /** A string whose `strip()` is empty: every character is whitespace. */
  predicate IsBlank(s: string) {
    forall i :: 0 <= i < |s| ==> IsSpace(s[i])
  }

  /** The number of strings in `segs` that survive the filter `if p.strip()`. */
  function NonBlankCount(segs: seq<string>): (n: nat)
    ensures n <= |segs|
    ensures n == 0 <==> forall k :: 0 <= k < |segs| ==> IsBlank(segs[k])
    ensures n == |segs| <==> forall k :: 0 <= k < |segs| ==> !IsBlank(segs[k])
  {
    if segs == [] then 0
    else (if IsBlank(segs[0]) then 0 else 1) + NonBlankCount(segs[1..])
  }

  /** Counting from the other end: a segment added at the end adds one
      exactly when it is not blank. With `NonBlankCount([]) == 0` this fixes
      the count of every list of segments. */
  lemma {:induction false} NonBlankCountSnoc(segs: seq<string>, p: string)
    ensures NonBlankCount(segs + [p]) == NonBlankCount(segs) + (if IsBlank(p) then 0 else 1)
  {
    if segs != [] {
      assert (segs + [p])[1..] == segs[1..] + [p];
      NonBlankCountSnoc(segs[1..], p);
    } else {
      assert [] + [p] == [p];
    }
  }
}
