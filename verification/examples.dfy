/** Worked instances of the five statistics on small texts. */
module StatsExamples {
  import opened Chars
  import opened Tokenize
  import opened Substrings
  import opened Runs
  import opened Frequency
  import opened TextStats

  /** Counting is case-insensitive and matches never overlap. */
  lemma CountSpecificWordExamples()
    ensures CountSpecificWord("AAaa", "aa") == 2
    ensures CountSpecificWord("aaaa", "aa") == 2
    ensures CountSpecificWord("", "aa") == 0
    ensures CountSpecificWord("apple", "") == 0
  {
  }

  /** An upper-case letter matches its lower-case partner, and after a match
      the scan resumes behind it: `"abababa"` holds `"aba"` twice. */
  lemma CountSpecificWordMoreExamples()
    ensures CountSpecificWord("B", "b") == 1
    ensures CountSpecificWord("abababa", "aba") == 2
  {
    assert Lowercase("B") == "b";
    assert Lowercase("abababa") == "abababa";
    assert Count("a", "aba") == 0;
    assert Count("baba", "aba") == 1 by {
      assert "baba"[1..] == "aba";
      assert "aba"[3..] == "";
    }
    assert "abababa"[3..] == "baba";
  }

  lemma JoinAAB()
    ensures JoinSpaced(["a", "a", "b"]) == "a a b"
  {
    assert ["a", "a", "b"][1..] == ["a", "b"];
    assert ["a", "b"][1..] == ["b"];
  }

  lemma JoinBAAB()
    ensures JoinSpaced(["b", "a", "a", "b"]) == "b a a b"
  {
    assert ["b", "a", "a", "b"][1..] == ["a", "a", "b"];
    JoinAAB();
  }

  lemma JoinABABC()
    ensures JoinSpaced(["ab", "abc"]) == "ab abc"
  {
    assert ["ab", "abc"][1..] == ["abc"];
  }

  lemma LowercaseBAAB()
    ensures Lowercase("B a A b") == "b a a b"
  {
  }

  lemma LowercaseAAB()
    ensures Lowercase("a a b") == "a a b"
  {
  }

  /** Counts of the words of a four-word list, built up one word at a time. */
  lemma OccurrencesOfFour(a: string, b: string, c: string, d: string, w: string)
    ensures Occurrences([a, b, c, d], w) ==
      (if a == w then 1 else 0) + (if b == w then 1 else 0) + (if c == w then 1 else 0) + (if d == w then 1 else 0)
    ensures Occurrences([a, b, c], w) ==
      (if a == w then 1 else 0) + (if b == w then 1 else 0) + (if c == w then 1 else 0)
  {
    assert [a] == [] + [a];
    OccurrencesSnoc([], a, w);
    assert [a, b] == [a] + [b];
    OccurrencesSnoc([a], b, w);
    assert [a, b, c] == [a, b] + [c];
    OccurrencesSnoc([a, b], c, w);
    assert [a, b, c, d] == [a, b, c] + [d];
    OccurrencesSnoc([a, b, c], d, w);
  }

  lemma FirstMostCommonAAB()
    ensures IsFirstMostCommon(["a", "a", "b"], "a")
  {
    var ws := ["a", "a", "b"];
    OccurrencesOfFour("a", "a", "b", "", "a");
    OccurrencesOfFour("a", "a", "b", "", "b");
    assert FirstIndex(ws, "a") == 0;
  }

  lemma FirstMostCommonBAAB()
    ensures IsFirstMostCommon(["b", "a", "a", "b"], "b")
  {
    var ws := ["b", "a", "a", "b"];
    OccurrencesOfFour("b", "a", "a", "b", "a");
    OccurrencesOfFour("b", "a", "a", "b", "b");
    assert FirstIndex(ws, "b") == 0;
  }

  lemma MostCommonWordExamples()
    ensures MostCommonWord("") == None
    ensures MostCommonWord("a a b") == Some("a")
  {
    var ws := ["a", "a", "b"];
    LowercaseAAB();
    JoinAAB();
    CleanedWordsJoinRoundTrip(ws);
    FirstMostCommonAAB();
    FirstMostCommonUnique(ws, MostCommonWord("a a b").value, "a");
  }

  /** On a tie the word met first wins, whatever the case of its letters. */
  lemma MostCommonWordTie()
    ensures MostCommonWord("B a A b") == Some("b")
  {
    var ws := ["b", "a", "a", "b"];
    LowercaseBAAB();
    JoinBAAB();
    CleanedWordsJoinRoundTrip(ws);
    FirstMostCommonBAAB();
    FirstMostCommonUnique(ws, MostCommonWord("B a A b").value, "b");
  }

  lemma AverageWordLengthExamples()
    ensures AverageWordLength("") == 0.0
    ensures AverageWordLength("ab abc") == 2.5
  {
    CleanedABABC();
    TotalABABC();
    assert Mean(["ab", "abc"]) == 5.0 / 2.0;
  }

  lemma CleanedABABC()
    ensures CleanedWords("ab abc") == ["ab", "abc"]
  {
    JoinABABC();
    CleanedWordsJoinRoundTrip(["ab", "abc"]);
  }

  lemma TotalABABC()
    ensures TotalLength(["ab", "abc"]) == 5
  {
    assert ["ab", "abc"][1..] == ["abc"];
  }

  lemma SplitStepMatch(s: string, rest: string, parts: seq<string>)
    requires |s| >= 2 && s[..2] == ParagraphBreak && s[2..] == rest
    requires SplitOn(rest, ParagraphBreak) == parts
    ensures SplitOn(s, ParagraphBreak) == [""] + parts
  {
  }

  lemma SplitStepChar(s: string, rest: string, parts: seq<string>)
    requires |s| >= 2 && s[..2] != ParagraphBreak && s[1..] == rest
    requires SplitOn(rest, ParagraphBreak) == parts && parts[0] == ""
    ensures SplitOn(s, ParagraphBreak) == [[s[0]]] + parts[1..]
  {
    assert [s[0]] + parts[0] == [s[0]];
  }

  lemma SplitParagraphsABC()
    ensures SplitOn("a\n\nb\n\nc", ParagraphBreak) == ["a", "b", "c"]
  {
    assert SplitOn("c", ParagraphBreak) == ["c"];
    SplitStepMatch("\n\nc", "c", ["c"]);
    assert "b\n\nc"[..2][0] == 'b';
    SplitStepChar("b\n\nc", "\n\nc", ["", "c"]);
    SplitStepMatch("\n\nb\n\nc", "b\n\nc", ["b", "c"]);
    assert "a\n\nb\n\nc"[..2][0] == 'a';
    SplitStepChar("a\n\nb\n\nc", "\n\nb\n\nc", ["", "b", "c"]);
  }

  lemma NonBlankABC()
    ensures NonBlankCount(["a", "b", "c"]) == 3
  {
    assert ["a", "b", "c"][1..] == ["b", "c"];
    assert ["b", "c"][1..] == ["c"];
    assert "a"[0] == 'a' && "b"[0] == 'b' && "c"[0] == 'c';
  }

  lemma CountParagraphsExamples()
    ensures CountParagraphs("") == 1
    ensures CountParagraphs("a\n\nb\n\nc") == 3
  {
    SplitParagraphsABC();
    NonBlankABC();
  }

  lemma SplitSentencesTail()
    ensures SplitRuns(" Bye.") == [" Bye", ""]
  {
    var s := " Bye.";
    assert SegmentEnd(s) == 4;
    assert s[4..] == ".";
    assert RunEnd(".") == 1;
    assert s[5..] == "";
    assert s[..4] == " Bye";
    assert SplitRuns("") == [""];
  }

  lemma SegmentEndHi()
    ensures SegmentEnd("Hi! Bye.") == 2
  {
    assert "Hi! Bye."[1..] == "i! Bye.";
    assert "i! Bye."[1..] == "! Bye.";
  }

  lemma RunEndBang()
    ensures "Hi! Bye."[2..] == "! Bye."
    ensures RunEnd("! Bye.") == 1
  {
    assert "! Bye."[1..] == " Bye.";
  }

  lemma SplitSentencesHiBye()
    ensures SplitRuns("Hi! Bye.") == ["Hi", " Bye", ""]
  {
    var s := "Hi! Bye.";
    SegmentEndHi();
    RunEndBang();
    assert s[3..] == " Bye.";
    assert s[..2] == "Hi";
    SplitSentencesTail();
  }

  lemma NonBlankHiBye()
    ensures NonBlankCount(["Hi", " Bye", ""]) == 2
  {
    assert ["Hi", " Bye", ""][1..] == [" Bye", ""];
    assert [" Bye", ""][1..] == [""];
    assert "Hi"[0] == 'H' && " Bye"[1] == 'B';
  }

  lemma CountSentencesExamples()
    ensures CountSentences("") == 1
    ensures CountSentences("Hi! Bye.") == 2
  {
    SplitSentencesHiBye();
    NonBlankHiBye();
  }
}
