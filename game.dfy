/**
  The game interpreter (`interperet_game_raw`, `interperet_game`): folds each
  guess and its `g`/`y`/`b` response into the present and not-present letters,
  the known positions and the per-guess known non-positions, and decides
  whether the game is won, lost or still open.
 */
module Game {
  import opened Wrappers

  /** A guess and the puzzle's response to it, one code per letter. */
  datatype Turn = Turn(move: string, response: string)

  datatype Status = Open | Won | Lost

  /** The dictionary `interperet_game` returns. */
  datatype GameState = GameState(
    present: string,
    notPresent: string,
    knownPositions: string,
    knownNonPositions: seq<string>,
    status: Status)

  /** Why the interpreter gives up: `moves_and_responses[-1]` on an empty game,
      an unrecognised response code, and the two assertions on raw moves. */
  datatype GameError = EmptyGame | InvalidResponse(code: char) | UnequalLengths | UnpairedMove

  /** The number of pairs after which a game that is not won is lost. */
  const MAX_ATTEMPTS: nat := 6

  /** The word length assumed when there are no moves. */
  const DEFAULT_LENGTH: nat := 5

  /** How many positions of a turn are read: `zip(move, response, range(length))`. */
  function Span(t: Turn, length: nat): (n: nat)
    ensures n <= |t.move| && n <= |t.response| && n <= length
    ensures n == |t.move| || n == |t.response| || n == length
  {
    var n := if |t.move| < |t.response| then |t.move| else |t.response|;
    if n < length then n else length
  }

  predicate IsCode(r: char)
  {
    r == 'b' || r == 'y' || r == 'g'
  }

  // ---------------------------------------------------------------------------
  // What the fold computes, as reference functions.
  // ---------------------------------------------------------------------------

  /** The first unrecognised code of a turn at or after position `i`. */
  function FirstBadFrom(t: Turn, length: nat, i: nat): (c: Option<char>)
    ensures c.Some? ==> !IsCode(c.value)
    ensures c.None? <==> forall j :: i <= j < Span(t, length) ==> IsCode(t.response[j])
    decreases Span(t, length) - i
  {
    if i >= Span(t, length) then None
    else if !IsCode(t.response[i]) then Some(t.response[i])
    else FirstBadFrom(t, length, i + 1)
  }

  /** The first unrecognised code of the game, in the order the interpreter reads them. */
  function FirstBad(turns: seq<Turn>, length: nat): (c: Option<char>)
    ensures c.Some? ==> !IsCode(c.value)
  {
    if turns == [] then None
    else match FirstBadFrom(turns[0], length, 0)
      case Some(c) => Some(c)
      case None => FirstBad(turns[1..], length)
  }

  /** A code `FirstBadFrom` finds is the response at the first read position,
      from `i` on, whose code is unrecognised. */
  lemma {:induction false} FirstBadFromIsFirst(t: Turn, length: nat, i: nat)
    ensures var c := FirstBadFrom(t, length, i);
      c.Some? ==> exists j :: (i <= j < Span(t, length) && t.response[j] == c.value &&
        forall j' :: i <= j' < j ==> IsCode(t.response[j']))
    decreases Span(t, length) - i
  {
    if i < Span(t, length) {
      if IsCode(t.response[i]) {
        FirstBadFromIsFirst(t, length, i + 1);
        var c := FirstBadFrom(t, length, i);
        if c.Some? {
          var j :| i + 1 <= j < Span(t, length) && t.response[j] == c.value &&
            forall j' :: i + 1 <= j' < j ==> IsCode(t.response[j']);
          assert forall j' :: i <= j' < j ==> IsCode(t.response[j']);
        }
      } else {
        assert FirstBadFrom(t, length, i) == Some(t.response[i]);
      }
    }
  }

  /** A code `FirstBad` finds is the response at a read position of turn `k`
      such that no earlier turn, and no earlier position of turn `k`, holds an
      unrecognised code: the first in reading order. */
  lemma {:induction false} FirstBadIsFirst(turns: seq<Turn>, length: nat)
    ensures var c := FirstBad(turns, length);
      c.Some? ==> exists k, j :: (0 <= k < |turns| && 0 <= j < Span(turns[k], length) &&
        turns[k].response[j] == c.value &&
        (forall j' :: 0 <= j' < j ==> IsCode(turns[k].response[j'])) &&
        forall k', j' :: 0 <= k' < k && 0 <= j' < Span(turns[k'], length) ==> IsCode(turns[k'].response[j']))
  {
    if turns != [] {
      FirstBadFromIsFirst(turns[0], length, 0);
      if FirstBadFrom(turns[0], length, 0).None? {
        FirstBadIsFirst(turns[1..], length);
        assert forall k :: 1 <= k < |turns| ==> turns[1..][k - 1] == turns[k];
        if FirstBad(turns, length).Some? {
          var c := FirstBad(turns, length).value;
          var k, j :| 0 <= k < |turns[1..]| && 0 <= j < Span(turns[1..][k], length) &&
            turns[1..][k].response[j] == c &&
            (forall j' :: 0 <= j' < j ==> IsCode(turns[1..][k].response[j'])) &&
            forall k', j' :: 0 <= k' < k && 0 <= j' < Span(turns[1..][k'], length) ==> IsCode(turns[1..][k'].response[j']);
          assert forall k', j' :: 0 <= k' < k + 1 && 0 <= j' < Span(turns[k'], length) ==> IsCode(turns[k'].response[j']) by {
            forall k', j' | 0 <= k' < k + 1 && 0 <= j' < Span(turns[k'], length)
              ensures IsCode(turns[k'].response[j'])
            {
              if k' > 0 {
                assert turns[k'] == turns[1..][k' - 1];
              }
            }
          }
        }
      }
    }
  }

  lemma {:induction false} FirstBadNone(turns: seq<Turn>, length: nat)
    ensures FirstBad(turns, length).None? <==>
      forall k, j :: 0 <= k < |turns| && 0 <= j < Span(turns[k], length) ==> IsCode(turns[k].response[j])
  {
    if turns != [] {
      FirstBadNone(turns[1..], length);
      assert forall k :: 1 <= k < |turns| ==> turns[1..][k - 1] == turns[k];
    }
  }

  /** The letters of the first `n` positions of a turn that were answered `code`. */
  function LettersUpTo(t: Turn, n: nat, code: char): set<char>
    requires n <= |t.move| && n <= |t.response|
  {
    set i | 0 <= i < n && t.response[i] == code :: t.move[i]
  }

  /** The letters the turns were answered `code` for, turn by turn. */
  function Letters(turns: seq<Turn>, length: nat, code: char): set<char>
  {
    if turns == [] then {}
    else
      var last := turns[|turns| - 1];
      Letters(turns[..|turns| - 1], length, code) + LettersUpTo(last, Span(last, length), code)
  }

  /** Some turn answered letter `x` with `code` at a position that is read. */
  predicate Answered(turns: seq<Turn>, length: nat, code: char, x: char)
  {
    exists k, i :: 0 <= k < |turns| && 0 <= i < Span(turns[k], length) &&
      turns[k].response[i] == code && turns[k].move[i] == x
  }

  /** A letter is collected exactly when some turn answered it `code` at a position read. */
  lemma {:induction false} LettersMembership(turns: seq<Turn>, length: nat, code: char, x: char)
    ensures x in Letters(turns, length, code) <==> Answered(turns, length, code, x)
  {
    if turns != [] {
      var init := turns[..|turns| - 1];
      LettersMembership(init, length, code, x);
      assert forall k :: 0 <= k < |init| ==> init[k] == turns[k];
      var last := turns[|turns| - 1];
      if x in LettersUpTo(last, Span(last, length), code) {
        var i :| 0 <= i < Span(last, length) && last.response[i] == code && last.move[i] == x;
        assert turns[|turns| - 1] == last;
      }
      if Answered(turns, length, code, x) {
        var k, i :| 0 <= k < |turns| && 0 <= i < Span(turns[k], length) &&
           turns[k].response[i] == code && turns[k].move[i] == x;
        if k == |turns| - 1 {
          assert x in LettersUpTo(last, Span(last, length), code);
        }
      }
    }
  }

  /** `known[i] = m` at every green position among the first `n` of the turn. */
  function Overlay(known: string, t: Turn, n: nat): (r: string)
    requires n <= |t.move| && n <= |t.response|
    ensures |r| == |known|
  {
    seq(|known|, p requires 0 <= p < |known| => if p < n && t.response[p] == 'g' then t.move[p] else known[p])
  }

  /** The known positions after the turns, `.` where nothing is known. */
  function KnownString(turns: seq<Turn>, length: nat): (r: string)
    ensures |r| == length
  {
    if turns == [] then seq(length, _ => '.')
    else
      var last := turns[|turns| - 1];
      Overlay(KnownString(turns[..|turns| - 1], length), last, Span(last, length))
  }

  predicate GreenAt(t: Turn, length: nat, p: nat)
  {
    p < Span(t, length) && t.response[p] == 'g'
  }

  /** A position no turn is green at stays `.`. */
  lemma {:induction false} KnownWithoutGreen(turns: seq<Turn>, length: nat, p: nat)
    requires p < length
    requires forall k :: 0 <= k < |turns| ==> !GreenAt(turns[k], length, p)
    ensures KnownString(turns, length)[p] == '.'
  {
    if turns != [] {
      var init := turns[..|turns| - 1];
      assert forall k :: 0 <= k < |init| ==> init[k] == turns[k];
      KnownWithoutGreen(init, length, p);
    }
  }

  /** A position holds the letter of the last turn green there: a later `g`
      overrides an earlier one. */
  lemma {:induction false} KnownIsLastGreen(turns: seq<Turn>, length: nat, p: nat, k: nat)
    requires p < length && k < |turns| && GreenAt(turns[k], length, p)
    requires forall j :: k < j < |turns| ==> !GreenAt(turns[j], length, p)
    ensures KnownString(turns, length)[p] == turns[k].move[p]
  {
    var init := turns[..|turns| - 1];
    if k < |turns| - 1 {
      assert forall j :: 0 <= j < |init| ==> init[j] == turns[j];
      KnownIsLastGreen(init, length, p, k);
    }
  }

  /** The guess's non-position pattern after its first `n` positions: the letter
      at every yellow position, `.` elsewhere. */
  function PatternUpTo(t: Turn, length: nat, n: nat): (kn: string)
    requires n <= |t.move| && n <= |t.response| && n <= length
    ensures |kn| == length
  {
    seq(length, p requires 0 <= p < length => if p < n && t.response[p] == 'y' then t.move[p] else '.')
  }

  predicate HasLetter(kn: string)
  {
    exists p :: 0 <= p < |kn| && kn[p] != '.'
  }

  /** The non-position patterns of the turns, skipping those with no letter. */
  function Patterns(turns: seq<Turn>, length: nat): seq<string>
  {
    if turns == [] then []
    else
      var last := turns[|turns| - 1];
      var kn := PatternUpTo(last, length, Span(last, length));
      Patterns(turns[..|turns| - 1], length) + (if HasLetter(kn) then [kn] else [])
  }

  /** There is at most one pattern per turn; each spans the word, has a letter,
      and every letter it records is one of the present letters. */
  lemma {:induction false} PatternsWellFormed(turns: seq<Turn>, length: nat)
    ensures |Patterns(turns, length)| <= |turns|
    ensures forall q :: q in Patterns(turns, length) ==>
      |q| == length && HasLetter(q) &&
      forall p :: 0 <= p < |q| && q[p] != '.' ==> q[p] in Letters(turns, length, 'y')
  {
    if turns != [] {
      var init := turns[..|turns| - 1];
      var last := turns[|turns| - 1];
      PatternsWellFormed(init, length);
      var kn := PatternUpTo(last, length, Span(last, length));
      forall p | 0 <= p < |kn| && kn[p] != '.' ensures kn[p] in Letters(turns, length, 'y') {
        assert kn[p] in LettersUpTo(last, Span(last, length), 'y');
      }
    }
  }

  /** Each pattern is the `y` pattern of one of the turns. */
  lemma {:induction false} PatternsOrigin(turns: seq<Turn>, length: nat)
    ensures forall q :: q in Patterns(turns, length) ==>
      exists k :: 0 <= k < |turns| && q == PatternUpTo(turns[k], length, Span(turns[k], length))
  {
    if turns != [] {
      var init := turns[..|turns| - 1];
      PatternsOrigin(init, length);
      assert forall k :: 0 <= k < |init| ==> init[k] == turns[k];
    }
  }

  /** A turn whose `y` pattern has a letter contributes that pattern. */
  lemma {:induction false} PatternsComplete(turns: seq<Turn>, length: nat, k: nat)
    requires k < |turns| && HasLetter(PatternUpTo(turns[k], length, Span(turns[k], length)))
    ensures PatternUpTo(turns[k], length, Span(turns[k], length)) in Patterns(turns, length)
  {
    var init := turns[..|turns| - 1];
    if k < |init| {
      assert init[k] == turns[k];
      PatternsComplete(init, length, k);
    }
  }

  /** `won` when the last response is all `g`, else `lost` after the attempt budget, else `open`. */
  function StatusOf(turns: seq<Turn>, length: nat): (s: Status)
    requires turns != []
    ensures var last := turns[|turns| - 1].response;
      s == Won <==> |last| == length && forall i :: 0 <= i < |last| ==> last[i] == 'g'
    ensures s == Lost <==> s != Won && |turns| >= MAX_ATTEMPTS
  {
    if turns[|turns| - 1].response == seq(length, _ => 'g') then Won
    else if |turns| >= MAX_ATTEMPTS then Lost
    else Open
  }

  predicate StrictlyIncreasing(s: string)
  {
    forall i, j :: 0 <= i < j < |s| ==> s[i] < s[j]
  }

  lemma {:induction false} MinExists(s: set<char>)
    requires s != {}
    ensures exists m :: m in s && forall x :: x in s ==> m <= x
    decreases |s|
  {
    var y :| y in s;
    if s == {y} {
      assert forall x :: x in s ==> y <= x;
    } else {
      MinExists(s - {y});
      var m :| m in s - {y} && forall x :: x in s - {y} ==> m <= x;
      var least := if y < m then y else m;
      forall x | x in s ensures least <= x {
        if x != y {
          assert x in s - {y};
        }
      }
      assert least in s;
    }
  }

  /** `"".join(sorted(s))`: the letters of the set in increasing order. */
  function SortedString(s: set<char>): (r: string)
    ensures StrictlyIncreasing(r)
    ensures forall c :: c in r <==> c in s
    ensures |r| == |s|
    decreases |s|
  {
    if s == {} then []
    else
      MinExists(s);
      var m :| m in s && forall x :: x in s ==> m <= x;
      [m] + SortedString(s - {m})
  }

  /** What `interperet_game` returns for a list of turns. */
  function Interpret(turns: seq<Turn>): Result<GameState, GameError>
  {
    if turns == [] then Err(EmptyGame)
    else
      var length := |turns[0].move|;
      match FirstBad(turns, length)
      case Some(c) => Err(InvalidResponse(c))
      case None =>
        Ok(GameState(
          SortedString(Letters(turns, length, 'y')),
          SortedString(Letters(turns, length, 'b')),
          KnownString(turns, length),
          Patterns(turns, length),
          StatusOf(turns, length)))
  }

  /** Some turn has a code other than `b`, `y` or `g` at a position that is read. */
  predicate HasBadCode(turns: seq<Turn>, length: nat)
  {
    exists k, i :: 0 <= k < |turns| && 0 <= i < Span(turns[k], length) && !IsCode(turns[k].response[i])
  }

  /** The interpreter in one statement: it fails exactly on an empty game or an
      unrecognised code; otherwise `present` and `not_present` list, sorted,
      the letters answered `y` and `b`, the known positions are as long as the
      first move, and the status follows the last response and the budget. */
  lemma InterpretOutcome(turns: seq<Turn>)
    ensures Interpret(turns).Err? <==> turns == [] || HasBadCode(turns, |turns[0].move|)
    ensures Interpret(turns).Ok? ==>
      var g := Interpret(turns).value;
      var length := |turns[0].move|;
      && StrictlyIncreasing(g.present) && StrictlyIncreasing(g.notPresent)
      && (forall x :: x in g.present <==> Answered(turns, length, 'y', x))
      && (forall x :: x in g.notPresent <==> Answered(turns, length, 'b', x))
      && |g.knownPositions| == length
      && (g.status == Won <==> turns[|turns| - 1].response == seq(length, _ => 'g'))
      && (g.status == Lost <==> g.status != Won && |turns| >= MAX_ATTEMPTS)
  {
    if turns != [] {
      var length := |turns[0].move|;
      FirstBadNone(turns, length);
      forall x ensures x in Letters(turns, length, 'y') <==> Answered(turns, length, 'y', x) {
        LettersMembership(turns, length, 'y', x);
      }
      forall x ensures x in Letters(turns, length, 'b') <==> Answered(turns, length, 'b', x) {
        LettersMembership(turns, length, 'b', x);
      }
    }
  }

  /** One turn more: each reference fold takes one step. */
  lemma FoldStep(turns: seq<Turn>, length: nat, k: nat)
    requires k < |turns|
    ensures var t := turns[k];
      && Letters(turns[..k + 1], length, 'y') == Letters(turns[..k], length, 'y') + LettersUpTo(t, Span(t, length), 'y')
      && Letters(turns[..k + 1], length, 'b') == Letters(turns[..k], length, 'b') + LettersUpTo(t, Span(t, length), 'b')
      && KnownString(turns[..k + 1], length) == Overlay(KnownString(turns[..k], length), t, Span(t, length))
      && Patterns(turns[..k + 1], length) == Patterns(turns[..k], length) +
           (if HasLetter(PatternUpTo(t, length, Span(t, length))) then [PatternUpTo(t, length, Span(t, length))] else [])
  {
    assert turns[..k + 1][..k] == turns[..k];
  }

  /** One position more: each per-turn fold takes one step. */
  lemma PositionStep(t: Turn, length: nat, known: string, i: nat)
    requires i < Span(t, length) && |known| == length
    ensures var m, c := t.move[i], t.response[i];
      && LettersUpTo(t, i + 1, 'y') == LettersUpTo(t, i, 'y') + (if c == 'y' then {m} else {})
      && LettersUpTo(t, i + 1, 'b') == LettersUpTo(t, i, 'b') + (if c == 'b' then {m} else {})
      && Overlay(known, t, i + 1) == (if c == 'g' then Overlay(known, t, i)[i := m] else Overlay(known, t, i))
      && PatternUpTo(t, length, i + 1) == (if c == 'y' then PatternUpTo(t, length, i)[i := m] else PatternUpTo(t, length, i))
  {
  }

  // ---------------------------------------------------------------------------
  // `interperet_game` itself.
  // ---------------------------------------------------------------------------

  /** One pass of the inner loop of `interperet_game` over the positions of a
      pair: the first unrecognised code, or the sets, the known positions and
      this guess's pattern extended by the pair. */
  method ReadTurn(t: Turn, length: nat, contained0: set<char>, uncontained0: set<char>, known0: string)
    returns (bad: Option<char>, contained: set<char>, uncontained: set<char>, known: string, kn: string)
    requires |known0| == length
    ensures bad == FirstBadFrom(t, length, 0)
    ensures bad.None? ==>
      && contained == contained0 + LettersUpTo(t, Span(t, length), 'y')
      && uncontained == uncontained0 + LettersUpTo(t, Span(t, length), 'b')
      && known == Overlay(known0, t, Span(t, length))
      && kn == PatternUpTo(t, length, Span(t, length))
  {
    var move, response := t.move, t.response;
    contained, uncontained, known := contained0, uncontained0, known0;
    kn := seq(length, _ => '.');
    for i := 0 to Span(t, length)
      invariant FirstBadFrom(t, length, 0) == FirstBadFrom(t, length, i)
      invariant contained == contained0 + LettersUpTo(t, i, 'y')
      invariant uncontained == uncontained0 + LettersUpTo(t, i, 'b')
      invariant known == Overlay(known0, t, i)
      invariant kn == PatternUpTo(t, length, i)
    {
      var m, c := move[i], response[i];
      PositionStep(t, length, known0, i);
      if c == 'b' {
        uncontained := uncontained + {m};
      } else if c == 'y' {
        contained := contained + {m};
        kn := kn[i := m];
      } else if c == 'g' {
        known := known[i := m];
      } else {
        return Some(c), contained, uncontained, known, kn;
      }
    }
    bad := None;
  }

  /** `interperet_game`: for each pair, position by position, `b` adds the
      letter to the not-present set, `y` adds it to the present set and to this
      guess's pattern, `g` overwrites the known position; any other code aborts.
      A pattern with a letter is appended. The status is read off the last pair. */
  method InterpretGame(turns: seq<Turn>) returns (r: Result<GameState, GameError>)
    ensures r == Interpret(turns)
  {
    var length := if |turns| > 0 then |turns[0].move| else DEFAULT_LENGTH;
    var contained: set<char> := {};
    var uncontained: set<char> := {};
    var known := seq(length, _ => '.');
    var knownNot: seq<string> := [];

    for k := 0 to |turns|
      invariant FirstBad(turns, length) == FirstBad(turns[k..], length)
      invariant contained == Letters(turns[..k], length, 'y')
      invariant uncontained == Letters(turns[..k], length, 'b')
      invariant known == KnownString(turns[..k], length)
      invariant knownNot == Patterns(turns[..k], length)
    {
      var t := turns[k];
      var bad, kn;
      bad, contained, uncontained, known, kn := ReadTurn(t, length, contained, uncontained, known);
      if bad.Some? {
        assert turns[k..][0] == t;
        return Err(InvalidResponse(bad.value));
      }
      if exists p :: 0 <= p < |kn| && kn[p] != '.' {
        knownNot := knownNot + [kn];
      }
      assert turns[k..][1..] == turns[k + 1..];
      FoldStep(turns, length, k);
    }
    assert turns[..|turns|] == turns;

    if |turns| == 0 {
      // `moves_and_responses[-1]` raises on an empty game.
      return Err(EmptyGame);
    }
    var status := Open;
    if turns[|turns| - 1].response == seq(length, _ => 'g') {
      status := Won;
    } else if |turns| >= MAX_ATTEMPTS {
      status := Lost;
    }
    return Ok(GameState(SortedString(contained), SortedString(uncontained), known, knownNot, status));
  }

  // ---------------------------------------------------------------------------
  // `interperet_game_raw`: a flat list of moves and responses.
  // ---------------------------------------------------------------------------

  /** `str.lower`, over ASCII letters. */
  function LowerChar(c: char): char
  {
    if 'A' <= c <= 'Z' then (c as int + 32) as char else c
  }

  function Lower(s: string): (r: string)
    ensures |r| == |s|
  {
    seq(|s|, i requires 0 <= i < |s| => LowerChar(s[i]))
  }

  predicate IsLowered(s: string)
  {
    forall i :: 0 <= i < |s| ==> !('A' <= s[i] <= 'Z')
  }

  lemma LowerLowered(s: string)
    requires IsLowered(s)
    ensures Lower(s) == s
  {
  }

  predicate UniformLength(raw: seq<string>)
  {
    forall k :: 0 <= k < |raw| ==> |raw[k]| == |raw[0]|
  }

  /** `zip(moves, responses)` of the lower-cased even- and odd-indexed tokens. */
  function Pairs(raw: seq<string>): (turns: seq<Turn>)
    requires |raw| % 2 == 0
    ensures 2 * |turns| == |raw|
    ensures forall k :: 0 <= k < |turns| ==>
      turns[k].move == Lower(raw[2 * k]) && turns[k].response == Lower(raw[2 * k + 1])
  {
    seq(|raw| / 2, k requires 0 <= k < |raw| / 2 => Turn(Lower(raw[2 * k]), Lower(raw[2 * k + 1])))
  }

  /** Checks the raw tokens and pairs the even-indexed moves with the
      odd-indexed responses, lower-cased. */
  function PairMoves(raw: seq<string>): (r: Result<seq<Turn>, GameError>)
    ensures r == Err(UnequalLengths) <==> |raw| > 0 && !UniformLength(raw)
    ensures r == Err(UnpairedMove) <==> |raw| > 0 && UniformLength(raw) && |raw| % 2 != 0
    ensures r.Ok? ==> |raw| % 2 == 0 && r.value == Pairs(raw)
    ensures r.Ok? ==> 2 * |r.value| == |raw|
    ensures r.Ok? ==> forall k :: 0 <= k < |r.value| ==>
      |r.value[k].move| == |r.value[k].response| == |r.value[0].move| &&
      IsLowered(r.value[k].move) && IsLowered(r.value[k].response)
  {
    if |raw| > 0 then
      if !UniformLength(raw) then Err(UnequalLengths)
      else if |raw| % 2 != 0 then Err(UnpairedMove)
      else Ok(Pairs(raw))
    else Ok([])
  }

  /** The flat token list a game is written as: move, response, move, ... */
  function Flatten(turns: seq<Turn>): (raw: seq<string>)
    ensures |raw| == 2 * |turns|
    ensures forall k :: 0 <= k < |turns| ==> raw[2 * k] == turns[k].move && raw[2 * k + 1] == turns[k].response
  {
    if turns == [] then []
    else
      var rest := Flatten(turns[1..]);
      assert forall k :: 1 <= k < |turns| ==> rest[2 * (k - 1)] == turns[k].move && rest[2 * (k - 1) + 1] == turns[k].response;
      [turns[0].move, turns[0].response] + rest
  }

  lemma FlattenUniform(turns: seq<Turn>)
    requires forall k :: 0 <= k < |turns| ==> |turns[k].move| == |turns[k].response| == |turns[0].move|
    ensures UniformLength(Flatten(turns))
  {
    var raw := Flatten(turns);
    forall j | 0 <= j < |raw| ensures |raw[j]| == |raw[0]| {
      var k := j / 2;
      assert raw[0] == turns[0].move;
      if j % 2 == 0 {
        assert j == 2 * k && raw[j] == turns[k].move;
      } else {
        assert j == 2 * k + 1 && raw[j] == turns[k].response;
      }
    }
  }

  /** Pairing undoes flattening for a game of lower-case tokens of one length. */
  lemma PairFlatten(turns: seq<Turn>)
    requires forall k :: 0 <= k < |turns| ==> IsLowered(turns[k].move) && IsLowered(turns[k].response)
    requires forall k :: 0 <= k < |turns| ==> |turns[k].move| == |turns[k].response| == |turns[0].move|
    ensures PairMoves(Flatten(turns)) == Ok(turns)
  {
    var raw := Flatten(turns);
    if turns != [] {
      FlattenUniform(turns);
      assert |raw| % 2 == 0;
      var paired := Pairs(raw);
      forall k | 0 <= k < |turns| ensures paired[k] == turns[k] {
        LowerLowered(turns[k].move);
        LowerLowered(turns[k].response);
      }
      assert paired == turns;
    }
  }

  /** What `interperet_game_raw` returns. */
  function InterpretRaw(raw: seq<string>): Result<GameState, GameError>
  {
    match PairMoves(raw)
    case Err(e) => Err(e)
    case Ok(turns) => Interpret(turns)
  }

  /** The default length of five is never used: a game without moves is an
      error, and a game that is interpreted has known positions exactly as long
      as its tokens. */
  lemma RawGameLength(raw: seq<string>)
    ensures raw == [] ==> InterpretRaw(raw) == Err(EmptyGame)
    ensures InterpretRaw(raw).Ok? ==> raw != [] && |InterpretRaw(raw).value.knownPositions| == |raw[0]|
  {
    if raw != [] && PairMoves(raw).Ok? {
      assert PairMoves(raw).value[0].move == Lower(raw[0]);
    }
  }

  /** `interperet_game_raw`: validates and pairs the tokens, then interprets. */
  method InterpretGameRaw(raw: seq<string>) returns (r: Result<GameState, GameError>)
    ensures r == InterpretRaw(raw)
    ensures |raw| > 0 && !UniformLength(raw) ==> r == Err(UnequalLengths)
    ensures |raw| > 0 && UniformLength(raw) && |raw| % 2 != 0 ==> r == Err(UnpairedMove)
    ensures (|raw| == 0 || UniformLength(raw)) && |raw| % 2 == 0 ==> r == Interpret(Pairs(raw))
  {
    var paired := PairMoves(raw);
    match paired
    case Err(e) =>
      r := Err(e);
    case Ok(turns) =>
      r := InterpretGame(turns);
  }
}
