/** `Counter(words).most_common(1)[0][0]`. A `Counter` is a dictionary, so
    its entries keep the order in which their words were first inserted;
    `most_common(1)` takes the maximum by count over that order, and the
    maximum keeps the first of several equal counts. */
module Frequency {

  /** One `(word, count)` item of the counter. */
  datatype Entry = Entry(word: string, count: nat)

  /** `words.count(w)`: how many times `w` appears in the list. */
  function Occurrences(ws: seq<string>, w: string): (n: nat)
    ensures n <= |ws|
    ensures n > 0 <==> w in ws
  {
    if ws == [] then 0
    else
      var p := ws[..|ws| - 1];
      assert ws == p + [ws[|ws| - 1]];
      Occurrences(p, w) + (if ws[|ws| - 1] == w then 1 else 0)
  }

  /** `words.index(w)`: the position of the first occurrence of `w`. */
  function FirstIndex(ws: seq<string>, w: string): (i: nat)
    requires w in ws
    ensures i < |ws| && ws[i] == w
    ensures forall j :: 0 <= j < i ==> ws[j] != w
  {
    var p := ws[..|ws| - 1];
    assert ws == p + [ws[|ws| - 1]];
    if w in p then FirstIndex(p, w) else |ws| - 1
  }

  /** The position of the entry for `w` in the table, or `|t|` if it has none. */
  function IndexOf(t: seq<Entry>, w: string): (k: nat)
    ensures k <= |t|
    ensures k < |t| ==> t[k].word == w
    ensures forall j :: 0 <= j < k ==> t[j].word != w
  {
    if t == [] || t[0].word == w then 0 else 1 + IndexOf(t[1..], w)
  }

  /** `counter[w]`: the count of the entry for `w`, 0 when there is none. */
  function Lookup(t: seq<Entry>, w: string): nat {
    var k := IndexOf(t, w);
    if k < |t| then t[k].count else 0
  }

  /** Looking a word up depends only on the words of the entries. */
  lemma {:induction false} IndexOfSameWords(t: seq<Entry>, r: seq<Entry>, w: string)
    requires |r| == |t|
    requires forall j :: 0 <= j < |t| ==> r[j].word == t[j].word
    ensures IndexOf(r, w) == IndexOf(t, w)
  {
    if t != [] && t[0].word != w {
      IndexOfSameWords(t[1..], r[1..], w);
    }
  }

  /** Looking a word up in a table with one more entry at the end. */
  lemma {:induction false} IndexOfSnoc(t: seq<Entry>, e: Entry, w: string)
    ensures IndexOf(t + [e], w) ==
      if IndexOf(t, w) < |t| then IndexOf(t, w) else if e.word == w then |t| else |t| + 1
  {
    if t != [] && t[0].word != w {
      assert (t + [e])[1..] == t[1..] + [e];
      IndexOfSnoc(t[1..], e, w);
    }
  }

  /** `mapping[w] = mapping.get(w, 0) + 1`: the count of `w` goes up by one
      and no other count changes. An existing entry is incremented where it
      stands, so the order of the entries is kept; a new word is appended. */
  function Bump(t: seq<Entry>, w: string): (r: seq<Entry>)
    ensures Lookup(r, w) == Lookup(t, w) + 1
    ensures forall v :: v != w ==> Lookup(r, v) == Lookup(t, v)
    ensures |r| == if IndexOf(t, w) < |t| then |t| else |t| + 1
    ensures forall j :: 0 <= j < |t| ==> r[j].word == t[j].word
  {
    var k := IndexOf(t, w);
    if k < |t| then
      var r := t[k := Entry(w, t[k].count + 1)];
      assert forall v :: IndexOf(r, v) == IndexOf(t, v) by {
        forall v
          ensures IndexOf(r, v) == IndexOf(t, v)
        {
          IndexOfSameWords(t, r, v);
        }
      }
      r
    else
      var r := t + [Entry(w, 1)];
      assert forall v :: IndexOf(r, v) == (if IndexOf(t, v) < |t| then IndexOf(t, v) else if w == v then |t| else |t| + 1) by {
        forall v
          ensures IndexOf(r, v) == (if IndexOf(t, v) < |t| then IndexOf(t, v) else if w == v then |t| else |t| + 1)
        {
          IndexOfSnoc(t, Entry(w, 1), v);
        }
      }
      r
  }

  /** `Counter(ws)`: the words of `ws` counted one after another. Looking up
      any word gives its number of occurrences, 0 for a word not in `ws`. */
  function Tally(ws: seq<string>): (t: seq<Entry>)
    ensures forall v :: Lookup(t, v) == Occurrences(ws, v)
  {
    if ws == [] then [] else Bump(Tally(ws[..|ws| - 1]), ws[|ws| - 1])
  }

  /** Every entry names a word of `ws` and holds its number of occurrences. */
  predicate CountsExact(t: seq<Entry>, ws: seq<string>) {
    forall k :: 0 <= k < |t| ==> t[k].word in ws && t[k].count == Occurrences(ws, t[k].word)
  }

  /** Every word of `ws` has an entry. */
  predicate CoversWords(t: seq<Entry>, ws: seq<string>) {
    forall i :: 0 <= i < |ws| ==> exists k :: 0 <= k < |t| && t[k].word == ws[i]
  }

  /** The entries are in the order of their words' first occurrences in `ws`. */
  predicate OrderedByFirst(t: seq<Entry>, ws: seq<string>)
    requires forall k :: 0 <= k < |t| ==> t[k].word in ws
  {
    forall j, k :: 0 <= j < k < |t| ==> FirstIndex(ws, t[j].word) < FirstIndex(ws, t[k].word)
  }

  /** `t` is the frequency table of `ws`: one entry per distinct word, each
      with its number of occurrences, ordered by first occurrence. */
  predicate IsTallyOf(t: seq<Entry>, ws: seq<string>) {
    CountsExact(t, ws) && CoversWords(t, ws) && OrderedByFirst(t, ws)
  }

  /** In a frequency table, an entry whose word occurs first comes first;
      in particular no word has two entries. */
  lemma OrderedIndex(t: seq<Entry>, ws: seq<string>, j: nat, k: nat)
    requires IsTallyOf(t, ws)
    requires j < |t| && k < |t|
    ensures FirstIndex(ws, t[j].word) < FirstIndex(ws, t[k].word) ==> j < k
    ensures j != k ==> t[j].word != t[k].word
  {
  }

  lemma OccurrencesSnoc(ws: seq<string>, v: string, w: string)
    ensures Occurrences(ws + [v], w) == Occurrences(ws, w) + (if v == w then 1 else 0)
  {
    assert (ws + [v])[..|ws|] == ws;
  }

  lemma FirstIndexSnoc(ws: seq<string>, v: string, w: string)
    requires w in ws
    ensures FirstIndex(ws + [v], w) == FirstIndex(ws, w)
  {
    assert (ws + [v])[..|ws|] == ws;
  }

  lemma FirstIndexNew(ws: seq<string>, v: string)
    requires v !in ws
    ensures FirstIndex(ws + [v], v) == |ws|
  {
    assert (ws + [v])[..|ws|] == ws;
  }

  /** Counting a word keeps every word covered, whichever branch it takes. */
  lemma BumpCovers(t: seq<Entry>, ws: seq<string>, v: string)
    requires CoversWords(t, ws)
    ensures CoversWords(Bump(t, v), ws + [v])
  {
    var ws' := ws + [v];
    var r := Bump(t, v);
    var k := IndexOf(t, v);
    assert forall j :: 0 <= j < |t| ==> r[j].word == t[j].word;
    forall i | 0 <= i < |ws'|
      ensures exists k' :: 0 <= k' < |r| && r[k'].word == ws'[i]
    {
      if i < |ws| {
        assert ws'[i] == ws[i];
        var k' :| 0 <= k' < |t| && t[k'].word == ws[i];
        assert r[k'].word == ws'[i];
      } else if k < |t| {
        assert r[k].word == ws'[i];
      } else {
        assert r[|t|].word == ws'[i];
      }
    }
  }

  /** Counting a word already in the table increments its entry in place
      and leaves every other entry as it was. */
  lemma BumpExistingCounts(t: seq<Entry>, ws: seq<string>, v: string)
    requires IsTallyOf(t, ws)
    requires IndexOf(t, v) < |t|
    ensures CountsExact(Bump(t, v), ws + [v])
  {
    var ws' := ws + [v];
    var r := Bump(t, v);
    var k := IndexOf(t, v);
    forall j | 0 <= j < |r|
      ensures r[j].word in ws'
      ensures r[j].count == Occurrences(ws', r[j].word)
    {
      OccurrencesSnoc(ws, v, t[j].word);
      OrderedIndex(t, ws, j, k);
    }
  }

  /** Incrementing an entry in place keeps the table's order. */
  lemma BumpExistingOrder(t: seq<Entry>, ws: seq<string>, v: string)
    requires IsTallyOf(t, ws)
    requires IndexOf(t, v) < |t|
    ensures forall j :: 0 <= j < |Bump(t, v)| ==> Bump(t, v)[j].word in ws + [v]
    ensures OrderedByFirst(Bump(t, v), ws + [v])
  {
    var ws' := ws + [v];
    var r := Bump(t, v);
    assert forall j :: 0 <= j < |r| ==> r[j].word == t[j].word;
    forall j, j' | 0 <= j < j' < |r|
      ensures FirstIndex(ws', r[j].word) < FirstIndex(ws', r[j'].word)
    {
      FirstIndexSnoc(ws, v, t[j].word);
      FirstIndexSnoc(ws, v, t[j'].word);
    }
  }

  /** A word without an entry does not occur in the counted list. */
  lemma MissingWord(t: seq<Entry>, ws: seq<string>, v: string)
    requires CoversWords(t, ws)
    requires IndexOf(t, v) == |t|
    ensures v !in ws
  {
    forall i | 0 <= i < |ws|
      ensures ws[i] != v
    {
      var k' :| 0 <= k' < |t| && t[k'].word == ws[i];
    }
  }

  /** Counting a word not yet in the table appends an entry with count 1. */
  lemma BumpNewCounts(t: seq<Entry>, ws: seq<string>, v: string)
    requires CountsExact(t, ws)
    requires v !in ws
    requires Bump(t, v) == t + [Entry(v, 1)]
    ensures CountsExact(Bump(t, v), ws + [v])
  {
    var ws' := ws + [v];
    var r := Bump(t, v);
    forall j | 0 <= j < |r|
      ensures r[j].word in ws'
      ensures r[j].count == Occurrences(ws', r[j].word)
    {
      OccurrencesSnoc(ws, v, r[j].word);
    }
  }

  /** Appending the entry of a new word keeps the table's order. */
  lemma BumpNewOrder(t: seq<Entry>, ws: seq<string>, v: string)
    requires CountsExact(t, ws) && OrderedByFirst(t, ws)
    requires v !in ws
    requires Bump(t, v) == t + [Entry(v, 1)]
    ensures forall j :: 0 <= j < |Bump(t, v)| ==> Bump(t, v)[j].word in ws + [v]
    ensures OrderedByFirst(Bump(t, v), ws + [v])
  {
    var ws' := ws + [v];
    var r := Bump(t, v);
    FirstIndexNew(ws, v);
    forall j, j' | 0 <= j < j' < |r|
      ensures FirstIndex(ws', r[j].word) < FirstIndex(ws', r[j'].word)
    {
      FirstIndexSnoc(ws, v, t[j].word);
      if j' < |t| {
        FirstIndexSnoc(ws, v, t[j'].word);
      }
    }
  }

  /** `Counter(ws)` is the frequency table of `ws`. */
  lemma {:induction false} TallySound(ws: seq<string>)
    ensures IsTallyOf(Tally(ws), ws)
  {
    if ws != [] {
      var p, v := ws[..|ws| - 1], ws[|ws| - 1];
      assert p + [v] == ws;
      TallySound(p);
      BumpCovers(Tally(p), p, v);
      if IndexOf(Tally(p), v) < |Tally(p)| {
        BumpExistingCounts(Tally(p), p, v);
        BumpExistingOrder(Tally(p), p, v);
      } else {
        MissingWord(Tally(p), p, v);
        BumpNewCounts(Tally(p), p, v);
        BumpNewOrder(Tally(p), p, v);
      }
    }
  }

  /** `max(items, key=count)`: the position of the first entry with the
      largest count; every entry before it has a strictly smaller count. */
  function Best(t: seq<Entry>): (b: nat)
    requires |t| > 0
    ensures b < |t|
    ensures forall k :: 0 <= k < |t| ==> t[k].count <= t[b].count
    ensures forall k :: 0 <= k < b ==> t[k].count < t[b].count
  {
    if |t| == 1 then 0
    else
      var b := Best(t[..|t| - 1]);
      if t[|t| - 1].count > t[b].count then |t| - 1 else b
  }

  /** `r` is a most frequent word of `ws`, and every word met before the
      first occurrence of `r` is strictly less frequent. */
  predicate IsFirstMostCommon(ws: seq<string>, r: string) {
    && r in ws
    && (forall i :: 0 <= i < |ws| ==> Occurrences(ws, ws[i]) <= Occurrences(ws, r))
    && (forall i :: 0 <= i < FirstIndex(ws, r) ==> Occurrences(ws, ws[i]) < Occurrences(ws, r))
  }

  /** At most one word is the first most common one. */
  lemma FirstMostCommonUnique(ws: seq<string>, a: string, b: string)
    requires IsFirstMostCommon(ws, a) && IsFirstMostCommon(ws, b)
    ensures a == b
  {
    var i, j := FirstIndex(ws, a), FirstIndex(ws, b);
    assert Occurrences(ws, ws[i]) <= Occurrences(ws, b);
    assert Occurrences(ws, ws[j]) <= Occurrences(ws, a);
    assert i == j;
  }

  /** `Counter(ws).most_common(1)[0][0]` for a non-empty list. */
  function MostCommon(ws: seq<string>): (r: string)
    requires |ws| > 0
    ensures IsFirstMostCommon(ws, r)
  {
    var t := Tally(ws);
    TallySound(ws);
    assert exists k :: 0 <= k < |t| && t[k].word == ws[0];
    var b := Best(t);
    var r := t[b].word;
    assert forall i :: 0 <= i < |ws| ==> Occurrences(ws, ws[i]) <= Occurrences(ws, r) by {
      forall i | 0 <= i < |ws|
        ensures Occurrences(ws, ws[i]) <= Occurrences(ws, r)
      {
        var k :| 0 <= k < |t| && t[k].word == ws[i];
      }
    }
    assert forall i :: 0 <= i < FirstIndex(ws, r) ==> Occurrences(ws, ws[i]) < Occurrences(ws, r) by {
      forall i | 0 <= i < FirstIndex(ws, r)
        ensures Occurrences(ws, ws[i]) < Occurrences(ws, r)
      {
        var k :| 0 <= k < |t| && t[k].word == ws[i];
        assert FirstIndex(ws, t[k].word) <= i;
        OrderedIndex(t, ws, k, b);
      }
    }
    r
  }
}
