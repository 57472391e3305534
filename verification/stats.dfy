/** The five statistics of pythonAssessment.py, each built from the
    tokenising, splitting and counting blocks of the other modules. */
module TextStats {
  import opened Chars
  import opened Tokenize
  import opened Substrings
  import opened Runs
  import opened Frequency

  /** Python's `None` or a value. */
  datatype Option<T> = None | Some(value: T)

  /** The separator `count_paragraphs` splits on: one blank line. */
  const ParagraphBreak: string := "\n\n"

  /** `count_specific_word`: a case-insensitive substring count. It is 0 for
      an empty text or an empty search word, it is positive exactly when the
      lowercased word occurs in the lowercased text, and the counted matches
      do not overlap, so they never cover more than the text. */
  function CountSpecificWord(text: string, searchWord: string): (n: nat)
    ensures |text| == 0 || |searchWord| == 0 ==> n == 0
    ensures n * |searchWord| <= |text|
    ensures n > 0 <==> |text| > 0 && |searchWord| > 0 && Contains(Lowercase(text), Lowercase(searchWord))
  {
    if |text| == 0 || |searchWord| == 0 then 0
    else
      CountPositive(Lowercase(text), Lowercase(searchWord));
      Count(Lowercase(text), Lowercase(searchWord))
  }

  /** Lowercasing either argument first does not change the count. */
  lemma CountSpecificWordCaseInsensitive(text: string, searchWord: string)
    ensures CountSpecificWord(Lowercase(text), Lowercase(searchWord)) == CountSpecificWord(text, searchWord)
  {
    LowercaseIdempotent(text);
    LowercaseIdempotent(searchWord);
  }

  /** Texts and search words that differ only in the case of their letters
      give the same count. */
  lemma CountSpecificWordIgnoresCase(text: string, text': string, searchWord: string, searchWord': string)
    requires SameTextIgnoringCase(text, text') && SameTextIgnoringCase(searchWord, searchWord')
    ensures CountSpecificWord(text, searchWord) == CountSpecificWord(text', searchWord')
  {
    LowercaseSameIgnoringCase(text, text');
    LowercaseSameIgnoringCase(searchWord, searchWord');
  }

  /** `identify_most_common_word`. There is no answer exactly when the text
      is empty or no word survives cleaning; otherwise the answer is a
      non-empty word of lowercase word characters that is the most frequent
      word of the cleaned list, and every word met before its first
      occurrence is strictly less frequent. */
  function MostCommonWord(text: string): (r: Option<string>)
    ensures r.None? <==> |text| == 0 || |CleanedWords(Lowercase(text))| == 0
    ensures r.Some? ==> IsFirstMostCommon(CleanedWords(Lowercase(text)), r.value)
    ensures r.Some? ==> |r.value| > 0
    ensures r.Some? ==> forall i :: 0 <= i < |r.value| ==> IsWordChar(r.value[i]) && !IsUpper(r.value[i])
  {
    if |text| == 0 then None
    else
      var ws := CleanedWords(Lowercase(text));
      if |ws| == 0 then None
      else
        var w := MostCommon(ws);
        assert forall i :: 0 <= i < |w| ==> !IsUpper(w[i]) by {
          var k :| 0 <= k < |ws| && ws[k] == w;
          forall i | 0 <= i < |w|
            ensures !IsUpper(w[i])
          {
            var low := Lowercase(text);
            assert w[i] in low;
            var j :| 0 <= j < |low| && low[j] == w[i];
          }
        }
        Some(w)
  }

  /** Texts that differ only in the case of their letters have the same most
      common word. */
  lemma MostCommonWordIgnoresCase(text: string, text': string)
    requires SameTextIgnoringCase(text, text')
    ensures MostCommonWord(text) == MostCommonWord(text')
  {
    LowercaseSameIgnoringCase(text, text');
  }

  /** The length of the shortest word. */
  function Shortest(ws: seq<string>): (m: nat)
    requires |ws| > 0
    ensures forall k :: 0 <= k < |ws| ==> m <= |ws[k]|
    ensures exists k :: 0 <= k < |ws| && |ws[k]| == m
  {
    if |ws| == 1 then |ws[0]|
    else
      var m := Shortest(ws[1..]);
      if |ws[0]| <= m then |ws[0]| else m
  }

  /** The length of the longest word. */
  function Longest(ws: seq<string>): (m: nat)
    requires |ws| > 0
    ensures forall k :: 0 <= k < |ws| ==> |ws[k]| <= m
    ensures exists k :: 0 <= k < |ws| && |ws[k]| == m
  {
    if |ws| == 1 then |ws[0]|
    else
      var m := Longest(ws[1..]);
      if |ws[0]| >= m then |ws[0]| else m
  }

  /** The total length of `n` words lies between `n` times the shortest and
      `n` times the longest length. */
  lemma {:induction false} TotalLengthBounds(ws: seq<string>)
    requires |ws| > 0
    ensures |ws| * Shortest(ws) <= TotalLength(ws) <= |ws| * Longest(ws)
  {
    if |ws| > 1 {
      var rest := ws[1..];
      TotalLengthBounds(rest);
      assert TotalLength(ws) == |ws[0]| + TotalLength(rest);
      BoundsStep(|rest|, Shortest(ws), Longest(ws), Shortest(rest), Longest(rest), |ws[0]|, TotalLength(rest));
    }
  }

  /** One more word whose length lies within the bounds keeps the total
      within the bounds. */
  lemma BoundsStep(n: nat, lo: nat, hi: nat, lo': nat, hi': nat, x: nat, total: nat)
    requires lo <= lo' && hi' <= hi && lo <= x <= hi
    requires n * lo' <= total <= n * hi'
    ensures (n + 1) * lo <= x + total <= (n + 1) * hi
  {
    MulMonotone(n, lo, lo');
    MulMonotone(n, hi', hi);
    MulSucc(n, lo);
    MulSucc(n, hi);
  }

  lemma MulSucc(n: nat, a: nat)
    ensures (n + 1) * a == a + n * a
  {
  }

  lemma MulMonotone(n: nat, a: nat, b: nat)
    requires a <= b
    ensures n * a <= n * b
  {
  }

  lemma DivTimes(x: real, y: real)
    requires y != 0.0
    ensures (x / y) * y == x
  {
  }

  lemma MulCancel(p: real, q: real, y: real)
    requires y > 0.0 && p * y <= q * y
    ensures p <= q
  {
    assert (q - p) * y == q * y - p * y;
  }

  /** A mean of counts lies between bounds that hold of every count. */
  lemma MeanBetween(total: nat, n: nat, lo: nat, hi: nat)
    requires n > 0
    requires n * lo <= total <= n * hi
    ensures (total as real / n as real) * n as real == total as real
    ensures lo as real <= total as real / n as real <= hi as real
  {
    var x, y := total as real, n as real;
    DivTimes(x, y);
    assert (n * lo) as real == lo as real * y;
    assert (n * hi) as real == hi as real * y;
    MulCancel(lo as real, x / y, y);
    MulCancel(x / y, hi as real, y);
  }

  lemma MeanFacts(ws: seq<string>)
    requires |ws| > 0
    ensures Shortest(ws) as real <= TotalLength(ws) as real / |ws| as real <= Longest(ws) as real
  {
    TotalLengthBounds(ws);
    MeanBetween(TotalLength(ws), |ws|, Shortest(ws), Longest(ws));
  }

  /** The mean length of a non-empty list of words lies between the
      shortest and the longest length. */
  function Mean(ws: seq<string>): (avg: real)
    requires |ws| > 0
    ensures Shortest(ws) as real <= avg <= Longest(ws) as real
  {
    MeanFacts(ws);
    TotalLength(ws) as real / |ws| as real
  }

  /** The words of a cleaned text hold, between them, exactly its
      non-whitespace characters. */
  lemma CleanedWordsLength(text: string)
    ensures TotalLength(CleanedWords(text)) == |NonSpace(Clean(text))|
  {
    var ws := Words(Clean(text));
    DropEmptyKeepsWords(ws);
    WordsConcat(Clean(text));
  }

  /** `calculate_average_word_length`, before rounding: 0 when the text is
      empty or no word survives cleaning; otherwise the number of
      non-whitespace characters left after cleaning divided by the number of
      words, which lies between the shortest and the longest word length. */
  function AverageWordLength(text: string): (avg: real)
    ensures avg == 0.0 <==> |CleanedWords(text)| == 0
    ensures |CleanedWords(text)| > 0 ==> avg == |NonSpace(Clean(text))| as real / |CleanedWords(text)| as real
    ensures |CleanedWords(text)| > 0 ==>
      Shortest(CleanedWords(text)) as real <= avg <= Longest(CleanedWords(text)) as real
  {
    if |text| == 0 then 0.0
    else
      var ws := CleanedWords(text);
      if |ws| == 0 then 0.0
      else
        CleanedWordsLength(text);
        assert Shortest(ws) >= 1;
        Mean(ws)
  }

  /** `count_paragraphs`: the number of segments between blank lines that
      hold more than whitespace, or 1 when there are none. It is 1 for the
      empty text, never below 1, never above one more than the number of
      blank-line separators, exactly that when no segment is blank, and 1
      for a text without a blank line. */
  function CountParagraphs(text: string): (n: nat)
    ensures n >= 1
    ensures |text| == 0 ==> n == 1
    ensures n <= 1 + Count(text, ParagraphBreak)
    ensures !Contains(text, ParagraphBreak) ==> n == 1
    ensures (forall k :: 0 <= k < |SplitOn(text, ParagraphBreak)| ==> !IsBlank(SplitOn(text, ParagraphBreak)[k])) ==>
      n == 1 + Count(text, ParagraphBreak)
  {
    if |text| == 0 then 1
    else
      var parts := SplitOn(text, ParagraphBreak);
      var m := NonBlankCount(parts);
      SplitOnCount(text, ParagraphBreak);
      CountPositive(text, ParagraphBreak);
      if m > 0 then m else 1
  }

  /** `count_sentences`: the number of segments between runs of `.`, `!`
      and `?` that hold more than whitespace, or 1 when there are none. It
      is 1 for the empty text, never below 1, never above one more than the
      number of runs of terminators, exactly that when no segment is blank,
      and 1 for a text without a terminator. */
  function CountSentences(text: string): (n: nat)
    ensures n >= 1
    ensures |text| == 0 ==> n == 1
    ensures n <= 1 + |Delims(text)|
    ensures NoTerminator(text) ==> n == 1
    ensures (forall k :: 0 <= k < |SplitRuns(text)| ==> !IsBlank(SplitRuns(text)[k])) ==> n == 1 + |Delims(text)|
  {
    if |text| == 0 then 1
    else
      var parts := SplitRuns(text);
      var m := NonBlankCount(parts);
      SplitRunsCount(text);
      if m > 0 then m else 1
  }

  /** A list whose only blank segment is its last holds one segment fewer
      than its length that survives the filter. */
  lemma LastBlankCount(parts: seq<string>)
    requires |parts| > 0
    requires forall k :: 0 <= k < |parts| - 1 ==> !IsBlank(parts[k])
    requires IsBlank(parts[|parts| - 1])
    ensures NonBlankCount(parts) == |parts| - 1
  {
    var init := parts[..|parts| - 1];
    assert init + [parts[|parts| - 1]] == parts;
    NonBlankCountSnoc(init, parts[|parts| - 1]);
  }

  /** A text whose only blank paragraph is the one after its last blank line
      (it ends in `"\n\n"`, say) has one paragraph per separator. */
  lemma CountParagraphsLastBlank(text: string)
    requires forall k :: 0 <= k < |SplitOn(text, ParagraphBreak)| - 1 ==> !IsBlank(SplitOn(text, ParagraphBreak)[k])
    requires IsBlank(SplitOn(text, ParagraphBreak)[|SplitOn(text, ParagraphBreak)| - 1])
    ensures CountParagraphs(text) == if Count(text, ParagraphBreak) == 0 then 1 else Count(text, ParagraphBreak)
  {
    SplitOnCount(text, ParagraphBreak);
    LastBlankCount(SplitOn(text, ParagraphBreak));
  }

  /** A text that ends in a terminator after non-blank sentences, the usual
      case, has one sentence per run of terminators. */
  lemma CountSentencesLastBlank(text: string)
    requires forall k :: 0 <= k < |SplitRuns(text)| - 1 ==> !IsBlank(SplitRuns(text)[k])
    requires IsBlank(SplitRuns(text)[|SplitRuns(text)| - 1])
    ensures CountSentences(text) == if |Delims(text)| == 0 then 1 else |Delims(text)|
  {
    SplitRunsCount(text);
    LastBlankCount(SplitRuns(text));
  }
}
