/**
  Wordlist preparation (`read_wordlist`): every word gets a coincidence score,
  the sum over its columns of how many words of the list have the same letter
  in that column, and the list is stable-sorted by that score, highest first.
 */
module Wordlist {
  import opened Wrappers

  /** A letter of `string.ascii_lowercase`, the letters the column table has entries for. */
  predicate IsLower(c: char)
  {
    'a' <= c <= 'z'
  }

  /** Why `read_wordlist` gives up: `words[0]` on an empty list, the length
      assertion, or a letter that has no entry in the column table. */
  datatype WordlistError = EmptyWordlist | InconsistentLength | UnknownLetter

  /** A word paired with its score, as `zip(words, scores)` pairs them. */
  type Entry = (string, nat)

  /** The ranked words and the word-to-score lookup `read_wordlist` returns. */
  datatype Ranking = Ranking(words: seq<string>, scoreOf: map<string, nat>)

  predicate SameLength(words: seq<string>)
    requires words != []
  {
    forall k :: 0 <= k < |words| ==> |words[k]| == |words[0]|
  }

  predicate AllLowercase(words: seq<string>)
  {
    forall k, c :: 0 <= k < |words| && 0 <= c < |words[k]| ==> IsLower(words[k][c])
  }

  /** The number of words that have letter `l` in column `c`. */
  function Count(words: seq<string>, l: char, c: nat): (n: nat)
    ensures n <= |words|
  {
    if words == [] then 0
    else
      var w := words[|words| - 1];
      Count(words[..|words| - 1], l, c) + (if c < |w| && w[c] == l then 1 else 0)
  }

  /** The coincidence score of the first `k` columns of `w`. */
  function ScoreUpTo(words: seq<string>, w: string, k: nat): nat
    requires k <= |w|
  {
    if k == 0 then 0 else ScoreUpTo(words, w, k - 1) + Count(words, w[k - 1], k - 1)
  }

  /** The coincidence score of `w` against `words`: the sum over its columns `c`
      of the number of words with the letter `w[c]` in column `c`. */
  function Score(words: seq<string>, w: string): nat
  {
    ScoreUpTo(words, w, |w|)
  }

  lemma {:induction false} CountOfMember(words: seq<string>, k: nat, c: nat)
    requires k < |words| && c < |words[k]|
    ensures Count(words, words[k][c], c) >= 1
  {
    if k < |words| - 1 {
      CountOfMember(words[..|words| - 1], k, c);
    }
  }

  lemma {:induction false} ScoreUpToBounds(words: seq<string>, k: nat, j: nat)
    requires k < |words| && j <= |words[k]|
    ensures j <= ScoreUpTo(words, words[k], j) <= j * |words|
  {
    if j > 0 {
      ScoreUpToBounds(words, k, j - 1);
      CountOfMember(words, k, j - 1);
      assert (j - 1) * |words| + |words| == j * |words|;
    }
  }

  /** Every column of a listed word matches at least that word itself and at
      most every word, so its score lies between its length and its length
      times the size of the list. */
  lemma ScoreBounds(words: seq<string>, k: nat)
    requires k < |words|
    ensures |words[k]| <= Score(words, words[k]) <= |words[k]| * |words|
  {
    ScoreUpToBounds(words, k, |words[k]|);
  }

  // ---------------------------------------------------------------------------
  // `sorted(..., key=score, reverse=True)`: a stable sort, highest score first.
  // ---------------------------------------------------------------------------

  predicate Descending(s: seq<Entry>)
  {
    forall i, j :: 0 <= i < j < |s| ==> s[i].1 >= s[j].1
  }

  /** The entries of `s` whose score is `v`, in the order of `s`. */
  function WithScore(s: seq<Entry>, v: nat): seq<Entry>
  {
    if s == [] then []
    else WithScore(s[..|s| - 1], v) + (if s[|s| - 1].1 == v then [s[|s| - 1]] else [])
  }

  lemma WithScoreSnoc(s: seq<Entry>, e: Entry, v: nat)
    ensures WithScore(s + [e], v) == WithScore(s, v) + (if e.1 == v then [e] else [])
  {
    assert (s + [e])[..|s|] == s;
  }

  /** Puts `e` after every entry whose score is at least its own. */
  function Insert(s: seq<Entry>, e: Entry): (r: seq<Entry>)
    ensures multiset(r) == multiset(s) + multiset{e}
  {
    if s == [] then [e]
    else
      var last := s[|s| - 1];
      if last.1 >= e.1 then s + [e]
      else
        var init := s[..|s| - 1];
        assert s == init + [last];
        Insert(init, e) + [last]
  }

  lemma {:induction false} InsertDescending(s: seq<Entry>, e: Entry)
    requires Descending(s)
    ensures Descending(Insert(s, e))
  {
    if s != [] {
      var last := s[|s| - 1];
      if last.1 < e.1 {
        var init := s[..|s| - 1];
        assert Descending(init);
        InsertDescending(init, e);
        var r := Insert(init, e);
        forall i | 0 <= i < |r| ensures r[i].1 >= last.1 {
          assert r[i] in multiset(init) + multiset{e};
          if r[i] != e {
            var j :| 0 <= j < |init| && init[j] == r[i];
            assert s[j] == r[i];
          }
        }
        assert Insert(s, e) == r + [last];
      }
    }
  }

  lemma {:induction false} InsertStable(s: seq<Entry>, e: Entry, v: nat)
    ensures WithScore(Insert(s, e), v) == WithScore(s, v) + (if e.1 == v then [e] else [])
  {
    if s == [] {
      assert WithScore([e], v) == WithScore([], v) + (if e.1 == v then [e] else []) by {
        WithScoreSnoc([], e, v);
      }
    } else {
      var last := s[|s| - 1];
      var init := s[..|s| - 1];
      assert s == init + [last];
      if last.1 >= e.1 {
        WithScoreSnoc(s, e, v);
      } else {
        InsertStable(init, e, v);
        WithScoreSnoc(Insert(init, e), last, v);
        WithScoreSnoc(init, last, v);
      }
    }
  }

  /** The stable descending sort of `s` by score. Besides being sorted and a
      permutation, for every score `v` the entries scoring `v` keep the order
      they have in `s`. */
  function SortByScore(s: seq<Entry>): (r: seq<Entry>)
    ensures Descending(r)
    ensures multiset(r) == multiset(s)
    ensures forall v :: WithScore(r, v) == WithScore(s, v)
  {
    if s == [] then []
    else
      var init := s[..|s| - 1];
      var e := s[|s| - 1];
      assert s == init + [e];
      var sorted := SortByScore(init);
      InsertDescending(sorted, e);
      var r := Insert(sorted, e);
      assert forall v :: WithScore(r, v) == WithScore(s, v) by {
        forall v ensures WithScore(r, v) == WithScore(s, v) {
          InsertStable(sorted, e, v);
          WithScoreSnoc(init, e, v);
        }
      }
      r
  }

  // ---------------------------------------------------------------------------
  // The ranking `read_wordlist` returns, as a reference function.
  // ---------------------------------------------------------------------------

  /** Each word paired with its score, in input order. */
  function Scored(words: seq<string>): (s: seq<Entry>)
    ensures |s| == |words|
    ensures forall k :: 0 <= k < |s| ==> s[k] == (words[k], Score(words, words[k]))
  {
    seq(|words|, k requires 0 <= k < |words| => (words[k], Score(words, words[k])))
  }

  function Firsts(s: seq<Entry>): (r: seq<string>)
    ensures |r| == |s| && forall k :: 0 <= k < |s| ==> r[k] == s[k].0
  {
    seq(|s|, k requires 0 <= k < |s| => s[k].0)
  }

  /** The words of `ws` whose score against `words` is `v`, in the order of `ws`. */
  function WordsScoring(words: seq<string>, ws: seq<string>, v: nat): seq<string>
  {
    if ws == [] then []
    else
      var w := ws[|ws| - 1];
      WordsScoring(words, ws[..|ws| - 1], v) + (if Score(words, w) == v then [w] else [])
  }

  predicate HonestEntries(words: seq<string>, s: seq<Entry>)
  {
    forall k :: 0 <= k < |s| ==> s[k].1 == Score(words, s[k].0)
  }

  lemma {:induction false} FirstsWithScore(words: seq<string>, s: seq<Entry>, v: nat)
    requires HonestEntries(words, s)
    ensures Firsts(WithScore(s, v)) == WordsScoring(words, Firsts(s), v)
  {
    if s != [] {
      var init := s[..|s| - 1];
      FirstsWithScore(words, init, v);
      assert Firsts(s)[..|s| - 1] == Firsts(init);
      var tail := if s[|s| - 1].1 == v then [s[|s| - 1]] else [];
      assert Firsts(WithScore(init, v) + tail) == Firsts(WithScore(init, v)) + Firsts(tail);
    }
  }

  lemma FirstsAppend(a: seq<Entry>, b: seq<Entry>)
    ensures Firsts(a + b) == Firsts(a) + Firsts(b)
  {
  }

  lemma {:induction false} FirstsInsert(s: seq<Entry>, e: Entry)
    ensures multiset(Firsts(Insert(s, e))) == multiset(Firsts(s)) + multiset{e.0}
  {
    if s == [] {
      assert Firsts([e]) == [e.0];
    } else {
      var last := s[|s| - 1];
      var init := s[..|s| - 1];
      assert s == init + [last];
      if last.1 >= e.1 {
        FirstsAppend(s, [e]);
      } else {
        FirstsInsert(init, e);
        FirstsAppend(Insert(init, e), [last]);
        FirstsAppend(init, [last]);
      }
    }
  }

  lemma {:induction false} FirstsSort(s: seq<Entry>)
    ensures multiset(Firsts(SortByScore(s))) == multiset(Firsts(s))
  {
    if s != [] {
      var init := s[..|s| - 1];
      var e := s[|s| - 1];
      assert s == init + [e];
      var sorted := SortByScore(init);
      assert SortByScore(s) == Insert(sorted, e);
      FirstsSort(init);
      FirstsInsert(sorted, e);
      FirstsAppend(init, [e]);
      assert Firsts([e]) == [e.0];
      calc {
        multiset(Firsts(SortByScore(s)));
        multiset(Firsts(sorted)) + multiset{e.0};
        multiset(Firsts(init)) + multiset{e.0};
        multiset(Firsts(init) + [e.0]);
        multiset(Firsts(s));
      }
    }
  }

  /** The words in the order `read_wordlist` ranks them. */
  function RankedWords(words: seq<string>): seq<string>
  {
    Firsts(SortByScore(Scored(words)))
  }

  /** The ranking only reorders the list: every word keeps its multiplicity. */
  lemma RankedIsPermutation(words: seq<string>)
    ensures multiset(RankedWords(words)) == multiset(words)
  {
    var scored := Scored(words);
    assert Firsts(scored) == words;
    FirstsSort(scored);
  }

  lemma RankedEntriesHonest(words: seq<string>)
    ensures HonestEntries(words, SortByScore(Scored(words)))
  {
    var scored := Scored(words);
    var sorted := SortByScore(scored);
    forall k | 0 <= k < |sorted| ensures sorted[k].1 == Score(words, sorted[k].0) {
      assert sorted[k] in multiset(scored);
      var j :| 0 <= j < |scored| && scored[j] == sorted[k];
    }
  }

  /** Higher scores come first. */
  lemma RankedIsDescending(words: seq<string>)
    ensures forall i, j :: 0 <= i < j < |RankedWords(words)| ==>
      Score(words, RankedWords(words)[i]) >= Score(words, RankedWords(words)[j])
  {
    RankedEntriesHonest(words);
  }

  /** Words with equal scores keep their input order (`sorted` is stable). */
  lemma RankedIsStable(words: seq<string>, v: nat)
    ensures WordsScoring(words, RankedWords(words), v) == WordsScoring(words, words, v)
  {
    var scored := Scored(words);
    var sorted := SortByScore(scored);
    assert Firsts(scored) == words;
    RankedEntriesHonest(words);
    FirstsWithScore(words, sorted, v);
    FirstsWithScore(words, scored, v);
  }

  // ---------------------------------------------------------------------------
  // `read_wordlist` itself.
  // ---------------------------------------------------------------------------

  lemma CountSnoc(words: seq<string>, i: nat, l: char, c: nat)
    requires i < |words|
    ensures Count(words[..i + 1], l, c)
         == Count(words[..i], l, c) + (if c < |words[i]| && words[i][c] == l then 1 else 0)
  {
    assert words[..i + 1][..i] == words[..i];
  }

  /** The letter-by-column table of `words`: for each letter of the alphabet,
      how many words have it in each column. */
  predicate IsColumnTable(words: seq<string>, columns: nat, table: map<char, seq<nat>>)
  {
    && table.Keys == (set l: char | IsLower(l))
    && (forall l :: l in table ==> |table[l]| == columns)
    && (forall l, c :: l in table && 0 <= c < columns ==> table[l][c] == Count(words, l, c))
  }

  /** First pass of `read_wordlist`: increments the count of every (letter,
      column) pair in place; a letter outside the alphabet has no entry and
      aborts the pass. */
  method TallyColumns(words: seq<string>, columns: nat) returns (letterAppears: map<char, seq<nat>>, ok: bool)
    requires forall k :: 0 <= k < |words| ==> |words[k]| == columns
    ensures ok <==> AllLowercase(words)
    ensures ok ==> IsColumnTable(words, columns, letterAppears)
  {
    letterAppears := map l: char | IsLower(l) :: seq(columns, _ => 0);
    for i := 0 to |words|
      invariant IsColumnTable(words[..i], columns, letterAppears)
      invariant forall k, c :: 0 <= k < i && 0 <= c < |words[k]| ==> IsLower(words[k][c])
    {
      var word := words[i];
      for column := 0 to |word|
        invariant letterAppears.Keys == (set l: char | IsLower(l))
        invariant forall l :: l in letterAppears ==> |letterAppears[l]| == columns
        invariant forall l, c :: l in letterAppears && 0 <= c < columns ==>
          letterAppears[l][c] == Count(words[..i], l, c) + (if c < column && word[c] == l then 1 else 0)
        invariant forall c :: 0 <= c < column ==> IsLower(word[c])
      {
        var letter := word[column];
        if letter !in letterAppears {
          return letterAppears, false;
        }
        letterAppears := letterAppears[letter := letterAppears[letter][column := letterAppears[letter][column] + 1]];
      }
      forall l, c | l in letterAppears && 0 <= c < columns
        ensures letterAppears[l][c] == Count(words[..i + 1], l, c)
      {
        CountSnoc(words, i, l, c);
      }
    }
    assert words[..|words|] == words;
    ok := true;
  }

  /** Second pass of `read_wordlist`: appends each word's score, summed from
      the table column by column. */
  method ScoreWords(words: seq<string>, columns: nat, letterAppears: map<char, seq<nat>>) returns (scores: seq<nat>)
    requires forall k :: 0 <= k < |words| ==> |words[k]| == columns
    requires AllLowercase(words)
    requires IsColumnTable(words, columns, letterAppears)
    ensures |scores| == |words|
    ensures forall k :: 0 <= k < |words| ==> scores[k] == Score(words, words[k])
  {
    scores := [];
    for k := 0 to |words|
      invariant |scores| == k
      invariant forall m :: 0 <= m < k ==> scores[m] == Score(words, words[m])
    {
      var word := words[k];
      var score := 0;
      for c := 0 to |word|
        invariant score == ScoreUpTo(words, word, c)
      {
        assert IsLower(word[c]);
        score := score + letterAppears[word[c]][c];
      }
      scores := scores + [score];
    }
  }

  /** `{ w: s for w, s in sorted_words_and_scores }`: later entries overwrite
      earlier ones, which is harmless because equal words score equally. */
  method ScoresByWord(words: seq<string>, sorted: seq<Entry>) returns (scoresByWord: map<string, nat>)
    requires multiset(sorted) == multiset(Scored(words))
    ensures scoresByWord.Keys == set w | w in words
    ensures forall k :: 0 <= k < |words| ==> scoresByWord[words[k]] == Score(words, words[k])
  {
    scoresByWord := map[];
    for k := 0 to |sorted|
      invariant forall m :: 0 <= m < k ==> sorted[m].0 in scoresByWord
      invariant forall w :: w in scoresByWord ==> w in words && scoresByWord[w] == Score(words, w)
    {
      var e := sorted[k];
      assert e in multiset(Scored(words));
      scoresByWord := scoresByWord[e.0 := e.1];
    }
    forall w | w in words ensures w in scoresByWord {
      var k :| 0 <= k < |words| && words[k] == w;
      assert Scored(words)[k] in multiset(sorted);
    }
  }

  /** `read_wordlist`: checks the lengths, tallies the columns, scores the
      words, sorts them and builds the score lookup. */
  method ReadWordlist(words: seq<string>) returns (r: Result<Ranking, WordlistError>)
    ensures r == Err(EmptyWordlist) <==> words == []
    ensures r == Err(InconsistentLength) <==> words != [] && !SameLength(words)
    ensures r == Err(UnknownLetter) <==> words != [] && SameLength(words) && !AllLowercase(words)
    ensures r.Ok? ==> r.value.words == RankedWords(words)
    ensures r.Ok? ==> r.value.scoreOf.Keys == set w | w in words
    ensures r.Ok? ==> forall k :: 0 <= k < |words| ==> r.value.scoreOf[words[k]] == Score(words, words[k])
  {
    if words == [] {
      return Err(EmptyWordlist);
    }
    var columns := |words[0]|;
    for k := 0 to |words|
      invariant forall m :: 0 <= m < k ==> |words[m]| == columns
    {
      if |words[k]| != columns {
        return Err(InconsistentLength);
      }
    }
    var letterAppears, ok := TallyColumns(words, columns);
    if !ok {
      return Err(UnknownLetter);
    }
    var scores := ScoreWords(words, columns, letterAppears);
    var wordsAndScores := seq(|words|, k requires 0 <= k < |words| => (words[k], scores[k]));
    assert wordsAndScores == Scored(words);
    var sortedWordsAndScores := SortByScore(wordsAndScores);
    var sortedWords := Firsts(sortedWordsAndScores);
    var scoresByWord := ScoresByWord(words, sortedWordsAndScores);
    return Ok(Ranking(sortedWords, scoresByWord));
  }
}
