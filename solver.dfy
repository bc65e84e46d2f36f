/**
  The candidate filter (`parse_known_positions`, `suggest_words`): keeps, in
  order, the words of a wordlist that contain every present letter, contain no
  absent letter, have the known letter at every known position, and avoid the
  letter of every known non-position.
 */
module Solver {
  import opened Wrappers

  /** `str.isalpha`, over ASCII letters. */
  predicate IsAlpha(c: char)
  {
    'a' <= c <= 'z' || 'A' <= c <= 'Z'
  }

  /** A known-positions pattern: a letter, or `None` for an unknown position. */
  type Pattern = seq<Option<char>>

  /** `parse_known_positions`: letters stay, any other character is unknown. */
  function ParseKnownPositions(raw: string): (p: Pattern)
    ensures |p| == |raw|
    ensures forall i :: 0 <= i < |raw| ==> (p[i].Some? <==> IsAlpha(raw[i]))
    ensures forall i :: 0 <= i < |raw| && p[i].Some? ==> p[i].value == raw[i]
  {
    seq(|raw|, i requires 0 <= i < |raw| => if IsAlpha(raw[i]) then Some(raw[i]) else None)
  }

  /** Writes a pattern back out with `.` for the unknown positions, the form
      the game interpreter produces. */
  function Render(p: Pattern): (raw: string)
    ensures |raw| == |p|
  {
    seq(|p|, i requires 0 <= i < |p| => if p[i].Some? then p[i].value else '.')
  }

  predicate LettersOnly(p: Pattern)
  {
    forall i :: 0 <= i < |p| && p[i].Some? ==> IsAlpha(p[i].value)
  }

  /** Parsing undoes rendering for a pattern of letters, and rendering undoes
      parsing for a string that marks unknown positions with `.`. */
  lemma ParseRender(p: Pattern, raw: string)
    ensures LettersOnly(p) ==> ParseKnownPositions(Render(p)) == p
    ensures (forall i :: 0 <= i < |raw| ==> IsAlpha(raw[i]) || raw[i] == '.') ==>
      Render(ParseKnownPositions(raw)) == raw
  {
    if LettersOnly(p) {
      var q := ParseKnownPositions(Render(p));
      forall i | 0 <= i < |p| ensures q[i] == p[i] {
        assert !IsAlpha('.');
      }
    }
  }

  /** The accumulated knowledge a word is filtered against. */
  datatype Constraints = Constraints(
    present: set<char>,
    absent: set<char>,
    known: Pattern,
    knownNot: seq<Pattern>)

  /** `set(word)`. */
  function Chars(w: string): set<char>
  {
    set c | c in w
  }

  /** At every lettered position of `known` that the word has, the word has that letter. */
  predicate MatchesKnown(known: Pattern, w: string)
  {
    forall i :: 0 <= i < |known| && i < |w| && known[i].Some? ==> w[i] == known[i].value
  }

  /** At every lettered position of `kn` that the word has, the word has a different letter. */
  predicate Avoids(kn: Pattern, w: string)
  {
    forall i :: 0 <= i < |kn| && i < |w| && kn[i].Some? ==> w[i] != kn[i].value
  }

  /** The four checks of the filter, joined by AND: every present letter occurs
      in the word, no absent letter does, the known letters are in place and
      no known non-position letter is. */
  predicate Admits(c: Constraints, w: string)
    ensures Admits(c, w) <==>
      && (forall x :: x in c.present ==> x in w)
      && (forall x :: x in c.absent ==> x !in w)
      && (forall i :: 0 <= i < |c.known| && i < |w| && c.known[i].Some? ==> w[i] == c.known[i].value)
      && (forall k, i :: 0 <= k < |c.knownNot| && 0 <= i < |c.knownNot[k]| && i < |w| && c.knownNot[k][i].Some? ==>
            w[i] != c.knownNot[k][i].value)
  {
    && c.present <= Chars(w)
    && c.absent !! Chars(w)
    && MatchesKnown(c.known, w)
    && (forall k :: 0 <= k < |c.knownNot| ==> Avoids(c.knownNot[k], w))
  }

  /** The letters of a pattern. */
  function KnownLetters(known: Pattern): set<char>
  {
    set i | 0 <= i < |known| && known[i].Some? :: known[i].value
  }

  /** The constraints `suggest_words` builds from its arguments: the letters of
      the known positions are present too, and present takes priority over
      not present. */
  function MakeConstraints(containsLetters: string, uncontainedLetters: string,
                           knownPositions: string, knownNonPositions: seq<string>): (c: Constraints)
    ensures c.present !! c.absent
    ensures KnownLetters(c.known) <= c.present
    ensures forall x :: x in containsLetters ==> x in c.present
    ensures forall x :: x in uncontainedLetters ==> x in c.present || x in c.absent
    ensures forall x :: x in c.present <==> x in containsLetters || x in KnownLetters(c.known)
    ensures forall x :: x in c.absent <==> x in uncontainedLetters && x !in c.present
    ensures c.known == ParseKnownPositions(knownPositions)
    ensures |c.knownNot| == |knownNonPositions|
    ensures forall k :: 0 <= k < |knownNonPositions| ==> c.knownNot[k] == ParseKnownPositions(knownNonPositions[k])
  {
    var known := ParseKnownPositions(knownPositions);
    var present := Chars(containsLetters) + KnownLetters(known);
    Constraints(present, Chars(uncontainedLetters) - present, known,
                seq(|knownNonPositions|, k requires 0 <= k < |knownNonPositions| => ParseKnownPositions(knownNonPositions[k])))
  }

  /** The words of `ws` that `c` admits, in the order of `ws`. */
  function Filter(ws: seq<string>, c: Constraints): (r: seq<string>)
    ensures |r| <= |ws|
    ensures forall w :: w in r <==> w in ws && Admits(c, w)
  {
    if ws == [] then []
    else
      var w := ws[|ws| - 1];
      var init := ws[..|ws| - 1];
      assert ws == init + [w];
      Filter(init, c) + (if Admits(c, w) then [w] else [])
  }

  /** `a` is `b` with some elements deleted, the rest in their order. */
  predicate IsSubsequence(a: seq<string>, b: seq<string>)
  {
    if b == [] then a == []
    else
      || (a != [] && a[|a| - 1] == b[|b| - 1] && IsSubsequence(a[..|a| - 1], b[..|b| - 1]))
      || IsSubsequence(a, b[..|b| - 1])
  }

  /** The filter adds nothing and reorders nothing. */
  lemma {:induction false} FilterIsSubsequence(ws: seq<string>, c: Constraints)
    ensures IsSubsequence(Filter(ws, c), ws)
  {
    if ws != [] {
      var w := ws[|ws| - 1];
      var init := ws[..|ws| - 1];
      FilterIsSubsequence(init, c);
      if Admits(c, w) {
        assert Filter(ws, c)[..|Filter(ws, c)| - 1] == Filter(init, c);
      } else {
        assert Filter(ws, c) == Filter(init, c);
      }
    }
  }

  /** A kept word keeps every copy it had; a dropped word keeps none. */
  lemma {:induction false} FilterMultiplicity(ws: seq<string>, c: Constraints, w: string)
    ensures multiset(Filter(ws, c))[w] == if Admits(c, w) then multiset(ws)[w] else 0
  {
    if ws != [] {
      var init := ws[..|ws| - 1];
      assert ws == init + [ws[|ws| - 1]];
      FilterMultiplicity(init, c, w);
    }
  }

  lemma {:induction false} FilterAppend(a: seq<string>, b: seq<string>, c: Constraints)
    ensures Filter(a + b, c) == Filter(a, c) + Filter(b, c)
    decreases |b|
  {
    if b == [] {
      assert a + b == a;
    } else {
      var w := b[|b| - 1];
      var binit := b[..|b| - 1];
      assert (a + b)[..|a + b| - 1] == a + binit;
      FilterAppend(a, binit, c);
    }
  }

  /** Filtering what the filter kept keeps all of it. */
  lemma {:induction false} FilterIdempotent(ws: seq<string>, c: Constraints)
    ensures Filter(Filter(ws, c), c) == Filter(ws, c)
  {
    if ws != [] {
      var w := ws[|ws| - 1];
      var init := ws[..|ws| - 1];
      FilterIdempotent(init, c);
      var tail := if Admits(c, w) then [w] else [];
      FilterAppend(Filter(init, c), tail, c);
      if Admits(c, w) {
        assert Filter([w], c) == Filter([], c) + [w] by {
          assert [w][..0] == [];
        }
      }
    }
  }

  /** Why `suggest_words` gives up: `wordlist[0]` on an empty list, or the
      known-positions pattern has a different length from the first word. */
  datatype SuggestError = EmptyWordlist | KnownLengthMismatch

  /** What `suggest_words` returns. */
  function Suggest(wordlist: seq<string>, containsLetters: string, uncontainedLetters: string,
                   knownPositions: string, knownNonPositions: seq<string>): Result<seq<string>, SuggestError>
  {
    if wordlist == [] then Err(EmptyWordlist)
    else if |wordlist[0]| != |knownPositions| then Err(KnownLengthMismatch)
    else Ok(Filter(wordlist, MakeConstraints(containsLetters, uncontainedLetters, knownPositions, knownNonPositions)))
  }

  /** Suggesting again from the suggestions, with the same arguments, returns
      them unchanged, so long as there is a first suggestion to measure the
      pattern against and it has the pattern's length. With no suggestions
      the second call aborts on `wordlist[0]`. */
  lemma SuggestIdempotent(wordlist: seq<string>, containsLetters: string, uncontainedLetters: string,
                          knownPositions: string, knownNonPositions: seq<string>)
    requires Suggest(wordlist, containsLetters, uncontainedLetters, knownPositions, knownNonPositions).Ok?
    ensures var narrow := Suggest(wordlist, containsLetters, uncontainedLetters, knownPositions, knownNonPositions).value;
      && (narrow == [] ==> Suggest(narrow, containsLetters, uncontainedLetters, knownPositions, knownNonPositions) == Err(EmptyWordlist))
      && (narrow != [] && |narrow[0]| == |knownPositions| ==>
            Suggest(narrow, containsLetters, uncontainedLetters, knownPositions, knownNonPositions) == Ok(narrow))
  {
    FilterIdempotent(wordlist, MakeConstraints(containsLetters, uncontainedLetters, knownPositions, knownNonPositions));
  }

  /** The filtering loop of `suggest_words`: a word is copied unless one of
      the `elif` branches clears its flag. */
  method Narrow(wordlist: seq<string>, cons: Constraints) returns (narrow: seq<string>)
    ensures narrow == Filter(wordlist, cons)
  {
    var anyContained := cons.present != {};
    var anyUncontained := cons.absent != {};
    var anyKnown := exists i :: 0 <= i < |cons.known| && cons.known[i].Some?;
    var anyKnownNot := exists p, i :: 0 <= p < |cons.knownNot| && 0 <= i < |cons.knownNot[p]| && cons.knownNot[p][i].Some?;

    narrow := [];
    for k := 0 to |wordlist|
      invariant narrow == Filter(wordlist[..k], cons)
    {
      var word := wordlist[k];
      var copy := Copies(cons, anyContained, anyUncontained, anyKnown, anyKnownNot, word);
      if copy {
        narrow := narrow + [word];
      }
      assert wordlist[..k + 1][..k] == wordlist[..k];
    }
    assert wordlist[..|wordlist|] == wordlist;
  }

  /** The loop body's `elif` chain for one word: each check is skipped when
      its `any_` flag says there is nothing to check, and the first failing
      check clears `copy`. */
  method Copies(cons: Constraints, anyContained: bool, anyUncontained: bool, anyKnown: bool, anyKnownNot: bool,
                word: string) returns (copy: bool)
    requires anyContained == (cons.present != {})
    requires anyUncontained == (cons.absent != {})
    requires anyKnown == exists i :: 0 <= i < |cons.known| && cons.known[i].Some?
    requires anyKnownNot == exists p, i :: 0 <= p < |cons.knownNot| && 0 <= i < |cons.knownNot[p]| && cons.knownNot[p][i].Some?
    ensures copy == Admits(cons, word)
  {
    var contained: set<char>, uncontained: set<char> := cons.present, cons.absent;
    var known: Pattern, knownNot: seq<Pattern> := cons.known, cons.knownNot;
    var characters := Chars(word);
    copy := true;
    if anyContained && !(contained <= characters) {
      copy := false;
    } else if anyUncontained && !(uncontained !! characters) {
      copy := false;
    } else if anyKnown && exists i :: 0 <= i < |known| && i < |word| && known[i].Some? && known[i].value != word[i] {
      copy := false;
    } else if anyKnownNot && exists p, i :: 0 <= p < |knownNot| && 0 <= i < |knownNot[p]| && i < |word| &&
                                              knownNot[p][i].Some? && knownNot[p][i].value == word[i] {
      copy := false;
    }
  }

  /** `suggest_words`: builds the present set in place, removes it from the
      not-present set, then filters the wordlist. */
  method SuggestWords(wordlist: seq<string>, containsLetters: string, uncontainedLetters: string,
                      knownPositions: string, knownNonPositions: seq<string>) returns (r: Result<seq<string>, SuggestError>)
    ensures r == Suggest(wordlist, containsLetters, uncontainedLetters, knownPositions, knownNonPositions)
    ensures r.Ok? ==> IsSubsequence(r.value, wordlist)
    ensures r.Ok? ==> forall w :: w in r.value <==>
      w in wordlist && Admits(MakeConstraints(containsLetters, uncontainedLetters, knownPositions, knownNonPositions), w)
  {
    var contained := Chars(containsLetters);
    var uncontained := Chars(uncontainedLetters);
    var known := ParseKnownPositions(knownPositions);
    var knownNot := seq(|knownNonPositions|, k requires 0 <= k < |knownNonPositions| => ParseKnownPositions(knownNonPositions[k]));

    if wordlist == [] {
      return Err(EmptyWordlist);
    }
    if |wordlist[0]| != |known| {
      return Err(KnownLengthMismatch);
    }
    for k := 0 to |known|
      invariant contained == Chars(containsLetters) + KnownLetters(known[..k])
    {
      if known[k].Some? {
        contained := contained + {known[k].value};
      }
      assert KnownLetters(known[..k + 1]) == KnownLetters(known[..k]) + (if known[k].Some? then {known[k].value} else {});
    }
    assert known[..|known|] == known;
    uncontained := uncontained - contained;
    var cons := Constraints(contained, uncontained, known, knownNot);
    assert cons == MakeConstraints(containsLetters, uncontainedLetters, knownPositions, knownNonPositions);
    var narrow := Narrow(wordlist, cons);
    FilterIsSubsequence(wordlist, cons);
    return Ok(narrow);
  }
}
