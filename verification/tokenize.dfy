/** Punctuation stripping (`re.sub(r'[^\w\s]', '', s)`) and whitespace
    tokenisation (`s.split()` followed by the filter `if word`). */
module Tokenize {
  import opened Chars

  /** Characters the substitution keeps: word characters and whitespace. */
  predicate Kept(c: char) {
    IsWordChar(c) || IsSpace(c)
  }

  /** `re.sub(r'[^\w\s]', '', s)`: deletes every character that is neither
      a word character nor whitespace, keeping the order of the rest. */
  function Clean(s: string): (r: string)
    ensures |r| <= |s|
    ensures forall c :: c in r <==> c in s && Kept(c)
  {
    if s == [] then [] else (if Kept(s[0]) then [s[0]] else []) + Clean(s[1..])
  }

  /** Cleaning distributes over concatenation. */
  lemma {:induction false} CleanAppend(a: string, b: string)
    ensures Clean(a + b) == Clean(a) + Clean(b)
  {
    if a == [] {
      assert a + b == b;
    } else {
      assert (a + b)[1..] == a[1..] + b;
      CleanAppend(a[1..], b);
    }
  }

  /** Cleaning changes a string exactly when it holds a character to delete. */
  lemma {:induction false} CleanIdentity(s: string)
    ensures Clean(s) == s <==> forall i :: 0 <= i < |s| ==> Kept(s[i])
  {
    if s != [] {
      CleanIdentity(s[1..]);
      if !Kept(s[0]) {
        assert |Clean(s)| < |s|;
      } else if Clean(s) == s {
        assert Clean(s[1..]) == s[1..];
      }
    }
  }

  /** Cleaning is idempotent. */
  lemma CleanIdempotent(s: string)
    ensures Clean(Clean(s)) == Clean(s)
  {
    var r := Clean(s);
    forall i | 0 <= i < |r|
      ensures Kept(r[i])
    {
      assert r[i] in r;
    }
    CleanIdentity(r);
  }

  /** Lowercasing before or after cleaning gives the same string, because
      lowercasing moves no character into or out of the kept classes. */
  lemma {:induction false} CleanLowercase(s: string)
    ensures Clean(Lowercase(s)) == Lowercase(Clean(s))
  {
    if s != [] {
      assert Lowercase(s)[1..] == Lowercase(s[1..]);
      CleanLowercase(s[1..]);
      if Kept(s[0]) {
        assert Lowercase(Clean(s)) == [Lower(s[0])] + Lowercase(Clean(s[1..]));
      }
    }
  }

  /** The length of the leading run of non-whitespace characters. */
  function WordEnd(s: string): (n: nat)
    ensures n <= |s|
    ensures forall i :: 0 <= i < n ==> !IsSpace(s[i])
    ensures n < |s| ==> IsSpace(s[n])
  {
    if s == [] || IsSpace(s[0]) then 0 else 1 + WordEnd(s[1..])
  }

  /** `s.split()` with no separator: the maximal runs of non-whitespace
      characters, in order; leading, trailing and repeated whitespace
      produce no empty words. */
  function Words(s: string): (ws: seq<string>)
    ensures forall k :: 0 <= k < |ws| ==> |ws[k]| > 0
    ensures forall k, i :: 0 <= k < |ws| && 0 <= i < |ws[k]| ==> !IsSpace(ws[k][i]) && ws[k][i] in s
    decreases |s|
  {
    if s == [] then []
    else if IsSpace(s[0]) then Words(s[1..])
    else
      var n := WordEnd(s);
      assert forall c :: c in s[n..] ==> c in s;
      [s[..n]] + Words(s[n..])
  }

  /** The list comprehension `[w for w in ws if w]`: it keeps exactly the
      non-empty strings. */
  function DropEmpty(ws: seq<string>): (r: seq<string>)
    ensures |r| <= |ws|
    ensures forall k :: 0 <= k < |r| ==> |r[k]| > 0
    ensures forall w :: w in r <==> w in ws && w != []
  {
    if ws == [] then []
    else (if ws[0] == [] then [] else [ws[0]]) + DropEmpty(ws[1..])
  }

  /** The filter `if word` after `split()` removes nothing. */
  lemma {:induction false} DropEmptyKeepsWords(ws: seq<string>)
    requires forall k :: 0 <= k < |ws| ==> |ws[k]| > 0
    ensures DropEmpty(ws) == ws
  {
    if ws != [] {
      DropEmptyKeepsWords(ws[1..]);
    }
  }

  /** The words the statistics work on: clean, split, drop empty strings. */
  function CleanedWords(s: string): (ws: seq<string>)
    ensures forall k :: 0 <= k < |ws| ==> |ws[k]| > 0
    ensures forall k, i :: 0 <= k < |ws| && 0 <= i < |ws[k]| ==> IsWordChar(ws[k][i]) && ws[k][i] in s
  {
    var ws := Words(Clean(s));
    DropEmptyKeepsWords(ws);
    DropEmpty(ws)
  }

  /** The characters of `s` that are not whitespace, in order. */
  function NonSpace(s: string): (r: string)
    ensures forall i :: 0 <= i < |r| ==> !IsSpace(r[i])
  {
    if s == [] then [] else (if IsSpace(s[0]) then [] else [s[0]]) + NonSpace(s[1..])
  }

  lemma {:induction false} NonSpaceAppend(a: string, b: string)
    ensures NonSpace(a + b) == NonSpace(a) + NonSpace(b)
  {
    if a == [] {
      assert a + b == b;
    } else {
      assert (a + b)[1..] == a[1..] + b;
      NonSpaceAppend(a[1..], b);
    }
  }

  lemma {:induction false} NonSpaceOfWord(s: string)
    requires forall i :: 0 <= i < |s| ==> !IsSpace(s[i])
    ensures NonSpace(s) == s
  {
    if s != [] {
      NonSpaceOfWord(s[1..]);
    }
  }

  /** All the words, concatenated without separators. */
  function Concat(ws: seq<string>): (r: string)
    ensures |ws| == 0 ==> r == []
  {
    if ws == [] then [] else ws[0] + Concat(ws[1..])
  }

  /** The sum of the word lengths, `sum(len(word) for word in words)`: the
      length of all the words written one after another. */
  function TotalLength(ws: seq<string>): (n: nat)
    ensures n == |Concat(ws)|
  {
    if ws == [] then 0 else |ws[0]| + TotalLength(ws[1..])
  }

  /** Tokenisation loses only whitespace: the words, concatenated, are the
      non-whitespace characters of the input in their original order. */
  lemma {:induction false} WordsConcat(s: string)
    ensures Concat(Words(s)) == NonSpace(s)
    decreases |s|
  {
    if s != [] {
      if IsSpace(s[0]) {
        WordsConcat(s[1..]);
      } else {
        var n := WordEnd(s);
        assert s == s[..n] + s[n..];
        NonSpaceAppend(s[..n], s[n..]);
        NonSpaceOfWord(s[..n]);
        WordsConcat(s[n..]);
      }
    }
  }

  /** Words joined by single spaces, `' '.join(ws)`. */
  function JoinSpaced(ws: seq<string>): string {
    if ws == [] then []
    else if |ws| == 1 then ws[0]
    else ws[0] + " " + JoinSpaced(ws[1..])
  }

  /** Joined words are made of their characters and single spaces. */
  lemma {:induction false} JoinSpacedChars(ws: seq<string>)
    ensures forall i :: 0 <= i < |JoinSpaced(ws)| ==>
      JoinSpaced(ws)[i] == ' ' || exists k, j :: 0 <= k < |ws| && 0 <= j < |ws[k]| && ws[k][j] == JoinSpaced(ws)[i]
  {
    if |ws| > 1 {
      JoinSpacedChars(ws[1..]);
      var s, rest := JoinSpaced(ws), JoinSpaced(ws[1..]);
      assert s == ws[0] + " " + rest;
      forall i | 0 <= i < |s| && s[i] != ' '
        ensures exists k, j :: 0 <= k < |ws| && 0 <= j < |ws[k]| && ws[k][j] == s[i]
      {
        if i < |ws[0]| {
          assert ws[0][i] == s[i];
        } else {
          var i' := i - |ws[0]| - 1;
          assert rest[i'] == s[i];
          var k, j :| 0 <= k < |ws[1..]| && 0 <= j < |ws[1..][k]| && ws[1..][k][j] == rest[i'];
          assert ws[k + 1][j] == s[i];
        }
      }
    }
  }

  lemma {:induction false} WordEndOfWord(w: string, rest: string)
    requires forall i :: 0 <= i < |w| ==> !IsSpace(w[i])
    requires rest == [] || IsSpace(rest[0])
    ensures WordEnd(w + rest) == |w|
  {
    if w != [] {
      assert (w + rest)[1..] == w[1..] + rest;
      WordEndOfWord(w[1..], rest);
    } else {
      assert w + rest == rest;
    }
  }

  /** Splitting undoes joining: a list of non-empty, whitespace-free words
      joined by single spaces splits back into exactly that list. */
  lemma {:induction false} WordsJoinRoundTrip(ws: seq<string>)
    requires forall k :: 0 <= k < |ws| ==> |ws[k]| > 0
    requires forall k, i :: 0 <= k < |ws| && 0 <= i < |ws[k]| ==> !IsSpace(ws[k][i])
    ensures Words(JoinSpaced(ws)) == ws
  {
    if ws != [] {
      var w := ws[0];
      if |ws| == 1 {
        WordEndOfWord(w, []);
        assert w + [] == w;
        assert w[..|w|] == w;
      } else {
        var rest := " " + JoinSpaced(ws[1..]);
        var s := w + rest;
        assert s == JoinSpaced(ws);
        assert IsSpace(rest[0]);
        WordEndOfWord(w, rest);
        assert s[..|w|] == w;
        assert s[|w|..] == rest;
        assert rest[1..] == JoinSpaced(ws[1..]);
        WordsJoinRoundTrip(ws[1..]);
        assert Words(s) == [w] + Words(rest);
      }
    }
  }

  /** Cleaning and splitting undo joining: non-empty words of word
      characters, joined by single spaces, come back as the same list. */
  lemma CleanedWordsJoinRoundTrip(ws: seq<string>)
    requires forall k :: 0 <= k < |ws| ==> |ws[k]| > 0
    requires forall k, i :: 0 <= k < |ws| && 0 <= i < |ws[k]| ==> IsWordChar(ws[k][i])
    ensures CleanedWords(JoinSpaced(ws)) == ws
  {
    var s := JoinSpaced(ws);
    JoinSpacedChars(ws);
    CleanIdentity(s);
    WordsJoinRoundTrip(ws);
    DropEmptyKeepsWords(ws);
  }

  /** Words with whitespace gaps around and between them:
      `gaps[0] + ws[0] + gaps[1] + ... + ws[n - 1] + gaps[n]`. */
  function Spaced(gaps: seq<string>, ws: seq<string>): string
    requires |gaps| == |ws| + 1
  {
    if ws == [] then gaps[0] else gaps[0] + ws[0] + Spaced(gaps[1..], ws[1..])
  }

  /** Gaps a split can undo: all whitespace, and non-empty between words. */
  predicate ValidGaps(gaps: seq<string>, ws: seq<string>) {
    && |gaps| == |ws| + 1
    && (forall k :: 0 <= k < |gaps| ==> IsBlank(gaps[k]))
    && (forall k :: 0 < k < |ws| ==> |gaps[k]| > 0)
  }

  /** Leading whitespace yields no word. */
  lemma {:induction false} WordsSkipBlank(g: string, r: string)
    requires IsBlank(g)
    ensures Words(g + r) == Words(r)
  {
    if g != [] {
      assert (g + r)[1..] == g[1..] + r;
      WordsSkipBlank(g[1..], r);
    } else {
      assert g + r == r;
    }
  }

  /** `split()` returns exactly the words between the whitespace gaps,
      whatever whitespace the gaps hold and however long they are: the words
      are the maximal runs of non-whitespace characters. */
  lemma {:induction false} WordsSpaced(gaps: seq<string>, ws: seq<string>)
    requires ValidGaps(gaps, ws)
    requires forall k :: 0 <= k < |ws| ==> |ws[k]| > 0
    requires forall k, i :: 0 <= k < |ws| && 0 <= i < |ws[k]| ==> !IsSpace(ws[k][i])
    ensures Words(Spaced(gaps, ws)) == ws
  {
    if ws == [] {
      WordsSkipBlank(gaps[0], []);
      assert gaps[0] + [] == gaps[0];
    } else {
      var w, rest := ws[0], Spaced(gaps[1..], ws[1..]);
      assert Spaced(gaps, ws) == gaps[0] + (w + rest);
      WordsSkipBlank(gaps[0], w + rest);
      if |ws| == 1 {
        assert rest == gaps[1];
      } else {
        assert rest[0] == gaps[1][0];
      }
      WordEndOfWord(w, rest);
      assert (w + rest)[..|w|] == w;
      assert (w + rest)[|w|..] == rest;
      WordsSpaced(gaps[1..], ws[1..]);
    }
  }

  /** Text made of words of word characters and whitespace gaps survives
      cleaning unchanged. */
  lemma {:induction false} CleanSpaced(gaps: seq<string>, ws: seq<string>)
    requires ValidGaps(gaps, ws)
    requires forall k, i :: 0 <= k < |ws| && 0 <= i < |ws[k]| ==> IsWordChar(ws[k][i])
    ensures Clean(Spaced(gaps, ws)) == Spaced(gaps, ws)
  {
    CleanIdentity(gaps[0]);
    if ws != [] {
      var rest := Spaced(gaps[1..], ws[1..]);
      CleanIdentity(ws[0]);
      CleanSpaced(gaps[1..], ws[1..]);
      CleanAppend(gaps[0], ws[0]);
      CleanAppend(gaps[0] + ws[0], rest);
    }
  }

  /** Cleaning and splitting return exactly the words between whitespace
      gaps of any kind and length. */
  lemma CleanedWordsSpaced(gaps: seq<string>, ws: seq<string>)
    requires ValidGaps(gaps, ws)
    requires forall k :: 0 <= k < |ws| ==> |ws[k]| > 0
    requires forall k, i :: 0 <= k < |ws| && 0 <= i < |ws[k]| ==> IsWordChar(ws[k][i])
    ensures CleanedWords(Spaced(gaps, ws)) == ws
  {
    CleanSpaced(gaps, ws);
    WordsSpaced(gaps, ws);
    DropEmptyKeepsWords(ws);
  }
}
