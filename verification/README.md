# Text statistics of a news article, in Dafny

This project models the five text-statistics functions of
`pythonAssessment.py`:

- `count_specific_word`, a case-insensitive substring count;
- `identify_most_common_word`, the most frequent cleaned word, with ties going to the word met first;
- `calculate_average_word_length`, the mean length of the cleaned words;
- `count_paragraphs`, the non-blank segments between blank lines;
- `count_sentences`, the non-blank segments between runs of `.`, `!` and `?`.

Each function is a pure Dafny function over `string` (`seq<char>`). It is built from
small recursive building blocks, and each block has its own lemmas:

| file | module | models |
|---|---|---|
| chars.dfy | `Chars` | `str.isspace` / `\s`, the `\w` class, `str.lower()`, `if p.strip()` |
| tokenize.dfy | `Tokenize` | `re.sub(r'[^\w\s]', '', s)`, `s.split()`, the filter `if word` |
| substrings.dfy | `Substrings` | `str.count(w)` and `str.split(sep)`: leftmost, non-overlapping |
| runs.dfy | `Runs` | `re.split(r'[.!?]+', s)` |
| frequency.dfy | `Frequency` | `Counter(words)` and `most_common(1)[0][0]` |
| stats.dfy | `TextStats` | the five statistics |
| examples.dfy | `StatsExamples` | worked instances on small texts |

The words `count_specific_word` counts are substrings, not whole words. It uses
`str.count`, so matches never overlap: `"aaaa"` holds `"aa"` twice, and
`"AAaa"` also gives 2.

A `Counter` is a dictionary, so its items stay in first-insertion order.
`most_common(1)` is `heapq.nlargest(1, …)`, which is `max` over those items,
and `max` keeps the first of several equal counts. So the most common word is
the most frequent word whose first occurrence comes earliest. The model states
this as `Frequency.IsFirstMostCommon`, and `FirstMostCommonUnique` proves that
at most one word satisfies it.

## Model

| member | source | states |
|---|---|---|
| Chars.Lower | pythonAssessment.py:19-20 | lowercasing one character never yields an upper-case letter and moves no character into or out of the word or whitespace class |
| Chars.LowerSameIgnoringCase | pythonAssessment.py:19-20 | two characters lowercase to the same character exactly when they are equal or an upper-case letter and its own lower-case partner, paired by position in the two alphabets |
| Chars.Lowercase | pythonAssessment.py:19-20 | `lower()` keeps the length and lowercases each character in place |
| Chars.LowercaseSameIgnoringCase | pythonAssessment.py:19-20 | two strings lowercase to the same string exactly when they differ at most in the case of their letters |
| Chars.NonBlankCountSnoc | pythonAssessment.py:99 | a segment added at the end adds one to the filtered count exactly when it is not all whitespace, which fixes the count of any list |
| Chars.NonBlankCount | pythonAssessment.py:99 | the number of segments that survive `if p.strip()` is at most the number of segments; it is 0 exactly when every segment is all whitespace, and it equals the number of segments exactly when none is |
| Tokenize.Clean | pythonAssessment.py:40 | the substitution keeps exactly the input's word and whitespace characters and never lengthens the text |
| Tokenize.CleanIdentity | pythonAssessment.py:68 | cleaning leaves a text unchanged if and only if every character is a word character or whitespace |
| Tokenize.CleanIdempotent | pythonAssessment.py:68 | cleaning an already cleaned text changes nothing |
| Tokenize.CleanAppend | pythonAssessment.py:40 | cleaning a concatenation is the concatenation of the cleaned parts |
| Tokenize.CleanLowercase | pythonAssessment.py:40 | lowercasing before cleaning (as at line 40) or after gives the same text |
| Tokenize.Words | pythonAssessment.py:43 | `split()` yields only non-empty words without whitespace, made of characters of the input |
| Tokenize.DropEmpty | pythonAssessment.py:43 | the filter `if word` keeps exactly the non-empty strings and never lengthens the list |
| Tokenize.DropEmptyKeepsWords | pythonAssessment.py:43 | the filter `if word` removes nothing from what `split()` returns |
| Tokenize.WordsConcat | pythonAssessment.py:71 | the words, concatenated, are exactly the non-whitespace characters of the input in order |
| Tokenize.WordsJoinRoundTrip | pythonAssessment.py:43 | splitting undoes joining non-empty whitespace-free words with single spaces |
| Tokenize.WordsSpaced | pythonAssessment.py:43 | for any whitespace gaps, non-empty between words, `split()` of the gaps and words written alternately returns exactly the words: the words are the maximal non-whitespace runs |
| Tokenize.TotalLength | pythonAssessment.py:77 | `sum(len(word) for word in words)` is the length of all the words written one after another |
| Tokenize.CleanedWords | pythonAssessment.py:68-71 | every cleaned word is non-empty, made only of word characters, all taken from the text |
| Tokenize.CleanedWordsJoinRoundTrip | pythonAssessment.py:68-71 | non-empty words of word characters joined by spaces clean and split back into the same list |
| Tokenize.CleanSpaced | pythonAssessment.py:68 | words of word characters with whitespace gaps survive cleaning unchanged |
| Tokenize.CleanedWordsSpaced | pythonAssessment.py:68-71 | for any whitespace gaps, non-empty between words, cleaning and splitting return exactly the words of word characters between them |
| Substrings.Count | pythonAssessment.py:23 | the non-overlapping matches together never cover more than the text: count × pattern length ≤ text length |
| Substrings.CountPositive | pythonAssessment.py:23 | a non-empty pattern is counted at least once if and only if it occurs in the text |
| Substrings.CountLeftmost | pythonAssessment.py:23 | when the leftmost occurrence starts at `i`, the count is one plus the count in the text after that occurrence; with CountPositive this fixes the count |
| Substrings.SplitOn | pythonAssessment.py:96 | `split(sep)` yields at least one segment, and the first segment is a prefix of the text |
| Substrings.SplitOnJoin | pythonAssessment.py:96 | joining the segments with the separator reproduces the text |
| Substrings.SplitOnCount | pythonAssessment.py:96 | there is exactly one more segment than `str.count` finds separators |
| Substrings.SplitOnAvoidsSep | pythonAssessment.py:96 | no segment contains the separator |
| Substrings.SplitOnNoSep | pythonAssessment.py:96 | a text without the separator splits into the one segment that is the whole text |
| Substrings.SplitOnLeftmost | pythonAssessment.py:96 | when the leftmost separator starts at `i`, the first segment is the text before it and the rest is the split of the text after it; with SplitOnNoSep this fixes every segment |
| Runs.SplitRuns | pythonAssessment.py:118 | `re.split(r'[.!?]+')` yields at least one segment; no segment holds a terminator; only the first and last may be empty |
| Runs.Delims | pythonAssessment.py:118 | the runs cut at are non-empty and consist of terminators only |
| Runs.SplitRunsCount | pythonAssessment.py:118 | there is exactly one more segment than there are maximal runs of terminators |
| Runs.SplitRunsRoundTrip | pythonAssessment.py:118 | putting the runs back between the segments reproduces the text |
| Frequency.Occurrences | pythonAssessment.py:49 | a word's count is positive exactly when it is in the list, and never exceeds the list's length |
| Frequency.IndexOf | pythonAssessment.py:49 | the counter lookup finds the first entry for the word, or reports that there is none |
| Frequency.Bump | pythonAssessment.py:49 | counting one word raises its count by one and leaves every other count alone; entries stay where they are and a new word is appended |
| Frequency.Tally | pythonAssessment.py:49 | looking up any word in `Counter(words)` gives its number of occurrences, 0 for a word not in the list |
| Frequency.TallySound | pythonAssessment.py:49 | `Counter(words)` holds one entry per distinct word with its exact count, in order of first occurrence |
| Frequency.Best | pythonAssessment.py:52 | `max` by count returns an entry with the largest count, and every entry before it has a strictly smaller count |
| Frequency.MostCommon | pythonAssessment.py:49-52 | the returned word is in the list, no word is more frequent, and every word met before its first occurrence is strictly less frequent |
| Frequency.FirstMostCommonUnique | pythonAssessment.py:49-52 | at most one word has that property, so the tie-break fixes the answer |
| TextStats.CountSpecificWord | pythonAssessment.py:4-24 | 0 for an empty text or word; positive exactly when the lowercased word occurs in the lowercased text; count × word length ≤ text length |
| TextStats.CountSpecificWordCaseInsensitive | pythonAssessment.py:19-23 | lowercasing the arguments beforehand does not change the count |
| TextStats.CountSpecificWordIgnoresCase | pythonAssessment.py:19-23 | texts and search words that differ only in the case of their letters give the same count |
| TextStats.MostCommonWord | pythonAssessment.py:26-52 | `None` exactly when the text is empty or no word survives cleaning; otherwise a non-empty word of lowercase word characters that is the first most common word |
| TextStats.MostCommonWordIgnoresCase | pythonAssessment.py:40-52 | texts that differ only in the case of their letters have the same most common word |
| TextStats.TotalLengthBounds | pythonAssessment.py:77 | the total length of n words lies between n × shortest and n × longest |
| TextStats.CleanedWordsLength | pythonAssessment.py:68-77 | the words' total length is the number of non-whitespace characters left after cleaning |
| TextStats.Mean | pythonAssessment.py:78 | the mean word length lies between the shortest and the longest word length |
| TextStats.AverageWordLength | pythonAssessment.py:54-78 | 0 exactly when no word survives; otherwise the number of non-whitespace characters left after cleaning divided by the word count, between the shortest and longest word length |
| TextStats.CountParagraphs | pythonAssessment.py:82-102 | at least 1; 1 for the empty text and for a text without a blank line; at most 1 + the number of non-overlapping `"\n\n"`, and exactly that when no segment is blank |
| TextStats.CountSentences | pythonAssessment.py:104-124 | at least 1; 1 for the empty text and for a text without a terminator; at most 1 + the number of runs of terminators, and exactly that when no segment is blank |
| TextStats.CountParagraphsLastBlank | pythonAssessment.py:96-102 | when only the last segment is blank, the paragraph count is the number of `"\n\n"` separators, or 1 if there is none |
| TextStats.CountSentencesLastBlank | pythonAssessment.py:118-124 | when only the last segment is blank, as for a text that ends in a terminator, the sentence count is the number of runs of terminators, or 1 if there is none |
| StatsExamples.CountSpecificWordExamples | pythonAssessment.py:15-23 | `("AAaa", "aa")` and `("aaaa", "aa")` both give 2; an empty text or word gives 0 |
| StatsExamples.CountSpecificWordMoreExamples | pythonAssessment.py:19-23 | `("B", "b")` gives 1 and `("abababa", "aba")` gives 2 |
| StatsExamples.MostCommonWordExamples | pythonAssessment.py:36-52 | `""` gives `None` and `"a a b"` gives `"a"` |
| StatsExamples.MostCommonWordTie | pythonAssessment.py:49-52 | in `"B a A b"`, `b` and `a` tie and `b`, met first, wins |
| StatsExamples.AverageWordLengthExamples | pythonAssessment.py:64-78 | `""` gives 0 and `"ab abc"` gives 2.5 |
| StatsExamples.CountParagraphsExamples | pythonAssessment.py:92-102 | `""` gives 1 and `"a\n\nb\n\nc"` gives 3 |
| StatsExamples.CountSentencesExamples | pythonAssessment.py:114-124 | `""` gives 1 and `"Hi! Bye."` gives 2 |

## Left out

- `run_interactive_analysis` and the `__main__` guard (pythonAssessment.py:126-203) are left out. They only read a file, print, prompt with `input()` and loop. The word count at line 160 only feeds a `print`.
- TextStats.AverageWordLength: returns the exact mean as a `real`. It does not model floating-point division or `round(…, 2)` at pythonAssessment.py:78-80.
- The `\w` class and `lower()` are modelled on ASCII only. Non-ASCII letters and digits count as non-word characters and are deleted by cleaning. `lower()` leaves non-ASCII characters unchanged, so the model never has Python's length-changing lowercasings. Whitespace is exact: it is every code point for which `str.isspace` holds.
- The text that `strip()` returns is never used. Only whether it is empty matters at lines 99 and 121, and that is what is modelled.
- Substrings.SplitOn: requires a non-empty separator, where Python raises `ValueError`. The only separator used is `"\n\n"`.
- The `re` engine is not modelled in general. Only the two patterns the functions use are written out.
- Referential transparency of the five functions is not stated separately. Every Dafny function is deterministic.
