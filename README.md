# eldrow solver core in Dafny

This is a model of the solver logic of `eldrow`, a Wordle helper. The logic has three parts:

- **Wordlist scoring** (`read_wordlist`). Each word gets a *coincidence score*. For each column `c`, count how many words in the list have the word's letter `w[c]` in column `c`; the score is the sum of these counts. The list is stable-sorted by score, highest first, and a word-to-score lookup is built.
- **Candidate filter** (`parse_known_positions`, `suggest_words`). The filter keeps, in order, every word that passes four checks:
  - it contains every present letter (a letter of the known-positions pattern counts as present);
  - it contains no not-present letter (a letter that is also present is not treated as not present);
  - it has the known letter at every known position;
  - it differs from every known non-position pattern at each of that pattern's lettered positions.
- **Game interpreter** (`interperet_game_raw`, `interperet_game`). It pairs the guesses with their `g`/`y`/`b` responses and folds them into the present letters, the not-present letters, the known positions and one non-position pattern per guess. It then decides `won`, `lost` or `open`.

Files:

- `wrappers.dfy`: `Option` and `Result`.
- `wordlist.dfy`: module `Wordlist`.
- `solver.dfy`: module `Solver`.
- `game.dfy`: module `Game`.

Each operation the source performs by mutation (the nested counting loops, the filter loop, the game fold) is a `method` with loops and invariants. Each method is proved equal to a pure reference function, and the properties are proved about those functions as lemmas.

Every way the Python code can abort is modelled as an `Err` result rather than a precondition:

| Python failure | `Err` value |
|---|---|
| `IndexError` on `words[0]` | `Wordlist.EmptyWordlist` |
| `IndexError` on `wordlist[0]` | `Solver.EmptyWordlist` |
| `moves_and_responses[-1]` on an empty game | `Game.EmptyGame` |
| the length assertion in `read_wordlist` | `InconsistentLength` |
| the length assertion in `suggest_words` | `KnownLengthMismatch` |
| the two assertions in `interperet_game_raw` | `UnequalLengths`, `UnpairedMove` |
| the `KeyError` for a letter outside `a`–`z` | `UnknownLetter` |
| the `ValueError` for a bad response code | `InvalidResponse(code)` |

Behaviour of the code worth knowing:

- **Empty game.** An empty game is not a fresh `open` game. `interperet_game([])` raises on `moves_and_responses[-1]`, so the `length = 5` fallback never produces a result (`Game.RawGameLength`).
- **Present versus not present in the game.** The game interpreter never removes present letters from `not_present`: a letter can be in both. Only `suggest_words` gives present letters priority.
- **Known positions and present letters.** The interpreter does not add known-position letters to `present`. `suggest_words` does that.
- **Length checks.** Only the known-positions pattern is checked, and only against the first word. Non-position patterns of any length are compared over the shorter of pattern and word, as `zip` does. Words after the first are not length-checked by `suggest_words`.
- **Suggesting from an empty list.** `suggest_words` on an empty wordlist raises instead of returning `[]`. So re-filtering its own output is idempotent only when that output is non-empty and its first word has the pattern's length (`Solver.SuggestIdempotent`).

## Model

| member | source | states |
|---|---|---|
| `Wordlist.ReadWordlist` | eldrow.py:31-61 | Error outcomes: `EmptyWordlist` exactly for an empty list; `InconsistentLength` exactly when some word's length differs from the first's; `UnknownLetter` exactly when the lengths agree but a letter is outside `a`–`z`. On success: the ranked words are the stable descending sort by score, the lookup's keys are the input words, and each word maps to its score. |
| `Wordlist.TallyColumns` | eldrow.py:40-43 | After the in-place increments, each table entry for letter `l` and column `c` is the number of words with `l` in column `c`. The pass succeeds exactly when every letter is in `a`–`z`. |
| `Wordlist.ScoreWords` | eldrow.py:49-52 | The appended list has one score per word, and each is the sum over the word's columns of the table counts. |
| `Wordlist.ScoresByWord` | eldrow.py:59 | The dictionary built from the sorted pairs has exactly the input words as keys, and each maps to its score, whichever duplicate is written last. |
| `Wordlist.Count` | eldrow.py:41-43 | A (letter, column) count never exceeds the number of words. |
| `Wordlist.ScoreBounds` | eldrow.py:40-52 | A listed word's score is at least its length and at most its length times the number of words. |
| `Wordlist.SortByScore` | eldrow.py:55-56 | `sorted(..., reverse=True)` on score: the result is descending by score and a permutation of the input. For every score, the entries with that score keep their input order. |
| `Wordlist.RankedIsPermutation` | eldrow.py:54-57 | The ranked words have exactly the input words, each with its multiplicity. |
| `Wordlist.RankedIsDescending` | eldrow.py:56-57 | Along the ranked words, scores never increase. |
| `Wordlist.RankedIsStable` | eldrow.py:56-57 | For every score `v`, the ranked words scoring `v` appear in their input order. |
| `Solver.ParseKnownPositions` | eldrow.py:67-68 | The pattern is as long as the string. A position holds a letter exactly when the character is alphabetic, and then it holds that character. |
| `Solver.ParseRender` | eldrow.py:67-68 | Parsing a rendered letter pattern gives the pattern back. Rendering the parse of a string of letters and `.` gives the string back. |
| `Solver.MakeConstraints` | eldrow.py:71-84 | A letter is present exactly when it is in `contains_letters` or is a known-position letter. A letter is not present exactly when it is in `uncontained_letters` and is not present, so present takes priority and the two are disjoint. The known pattern and each known non-position pattern are the parses of the corresponding arguments. |
| `Solver.Admits` | eldrow.py:98-126 | A word passes exactly when it contains every present letter, contains no absent letter, has the known letter at each known position it reaches, and has a different letter at each position of every non-position pattern it reaches. |
| `Solver.Filter` | eldrow.py:93-131 | A word is in the result exactly when it is in the list and passes all four checks. The result is never longer than the list. |
| `Solver.FilterIsSubsequence` | eldrow.py:93-131 | The result is a subsequence of the list: nothing is added or reordered. |
| `Solver.FilterMultiplicity` | eldrow.py:94-129 | A kept word keeps every copy it has in the list; a dropped word keeps none. |
| `Solver.FilterIdempotent` | eldrow.py:93-131 | Filtering the result again with the same constraints returns it unchanged. |
| `Solver.SuggestIdempotent` | eldrow.py:70-131 | Re-running `suggest_words` on its own output with the same arguments returns that output when it is non-empty and its first word has the pattern's length. It fails with `EmptyWordlist` when the output is empty. |
| `Solver.Copies` | eldrow.py:97-128 | The `elif` chain over one word, with each check skipped when its `any_` flag is false, leaves `copy` set exactly when the word passes the four checks. |
| `Solver.Narrow` | eldrow.py:86-131 | The `copy` flag and the `elif` chain keep a word exactly when the conjunction of the four checks holds. The loop appends exactly the filtered words, in order. |
| `Solver.SuggestWords` | eldrow.py:70-131 | Error outcomes: `EmptyWordlist` for an empty list; `KnownLengthMismatch` when the first word's length differs from the pattern's. Otherwise the present set is built in place and present letters are removed from not present. The result is a subsequence of the list, and a word is in it exactly when it passes the four checks. |
| `Game.FirstBadFrom` | eldrow.py:166-178 | No bad code is found exactly when every code read from that position on is `b`, `y` or `g`. A code that is found is not one of them. |
| `Game.FirstBadFromIsFirst` | eldrow.py:166-178 | A code that is found is the response character at the first read position, from that position on, whose code is not `b`, `y` or `g`. |
| `Game.FirstBadIsFirst` | eldrow.py:163-178 | A bad code that is found is the response character at some read position of some turn, with every earlier turn and every earlier position of that turn holding only `b`, `y` or `g`: the first bad code in reading order. |
| `Game.FirstBadNone` | eldrow.py:163-178 | The game has no bad code exactly when every code read, in every turn, is `b`, `y` or `g`. |
| `Game.LettersMembership` | eldrow.py:158-172 | A letter is collected for a code exactly when some turn answered it with that code at a position within the shortest of move, response and word length. |
| `Game.KnownWithoutGreen` | eldrow.py:160-176 | A position where no turn is green stays `.`. |
| `Game.KnownIsLastGreen` | eldrow.py:163-176 | A position holds the letter of the last turn that is green there, so a later `g` overrides an earlier one. |
| `Game.KnownString` | eldrow.py:160 | The known positions are as long as `length`; `Interpret` passes the first move's length. |
| `Game.PatternsWellFormed` | eldrow.py:164-181 | There is at most one non-position pattern per turn. Each pattern is word-length, has at least one letter, and records only present (`y`) letters. |
| `Game.PatternsOrigin` | eldrow.py:164-181 | Every non-position pattern is the `y` pattern of one of the turns, read over that turn's span. |
| `Game.PatternsComplete` | eldrow.py:164-181 | Every turn whose `y` pattern has a letter contributes that pattern to the non-position patterns. |
| `Game.StatusOf` | eldrow.py:183-187 | The status is `won` exactly when the last response has the game's length and is all `g`, and `lost` exactly when it is not won and there are at least six pairs; otherwise `open`. |
| `Game.SortedString` | eldrow.py:190-191 | `"".join(sorted(s))` is strictly increasing, has exactly the letters of the set, and has the set's size. |
| `Game.InterpretOutcome` | eldrow.py:151-195 | The result is an error exactly for an empty game or a bad code. Otherwise `present` and `not_present` are sorted and hold exactly the letters answered `y` and `b`. The known positions have the first move's length. The status is `won` exactly when the last response is all `g`, and `lost` exactly when not won and there are at least six pairs. |
| `Game.ReadTurn` | eldrow.py:164-178 | One pair's positions, read in order: the first unrecognised code exactly as `FirstBadFrom` finds it, or else the present and not-present sets grown by the pair's `y` and `b` letters, the known positions overlaid with its `g` letters, and its `y` pattern. |
| `Game.InterpretGame` | eldrow.py:151-195 | The fold over pairs and positions equals the reference function `Interpret`: the first bad code in reading order, or the sorted letter sets, the known positions, the non-position patterns and the status. |
| `Game.Pairs` | eldrow.py:142-143 | There are half as many turns as tokens, and turn k is the lower-cased token 2k as move and the lower-cased token 2k+1 as response. |
| `Game.PairMoves` | eldrow.py:138-143 | `UnequalLengths` exactly when there are tokens and some token's length differs from the first's. `UnpairedMove` exactly when the lengths agree and the count is odd. On success the count is even and the turns are `Pairs` of the tokens; there are half as many turns as tokens, and every move and response has the first move's length and is lower-case. |
| `Game.Flatten` | eldrow.py:142-143 | The flat token list has the moves at even and the responses at odd indices. |
| `Game.PairFlatten` | eldrow.py:138-149 | Pairing the flattened tokens of a lower-case game whose tokens share one length gives the game back. |
| `Game.RawGameLength` | eldrow.py:137-187 | A game with no tokens is the `EmptyGame` error. A game that is interpreted has known positions exactly as long as its tokens, so the default length of five never reaches a result. |
| `Game.InterpretGameRaw` | eldrow.py:137-149 | Tokens of unequal length give `UnequalLengths`. Tokens of one length but odd in number give `UnpairedMove`. Otherwise the result is the interpretation of the lower-cased pairs. |

## Left out

- `arg_parser` and `main` (eldrow.py:201-287): argument parsing, reading the wordlist file, trimming and lower-casing its lines, printing, padding scores, the `--limit` cut-off and writing the output file. These are I/O and presentation.
- `str.isalpha` and `str.lower`: modelled over ASCII letters only. Python's Unicode letters and case mappings are not modelled.
- Assertions: the model always checks them. Running Python with `-O` would skip them; that is not modelled.
- Error messages: their text is not modelled. `Wordlist.ReadWordlist` does not record which letter raised the `KeyError`.
- `sorted`: modelled as a stable insertion sort. The descending order plus stability determine the result, so Timsort's steps do not matter.
- Result types: Python's tuple of sorted words is a `seq`. The returned dictionaries are a `map` and a `GameState` datatype, so dictionary iteration order is not modelled.
- A guess/target comparator and an autoplay or completeness verifier are not part of this source, so the model has neither.
