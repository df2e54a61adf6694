# Wordle solver core, modelled and verified in Dafny

This is a model of the core of `WordleSolver.py`, an entropy-driven Wordle solver for
English and Hebrew. The game hides a five-letter solution. Each guess earns a pattern of
marks:

- `2` (green): the letter is in the right place.
- `1` (yellow): the letter is in the solution elsewhere.
- `0` (grey): no further copy of the letter is left.

The solver keeps a pool of candidate solutions. It shrinks the pool by each observation
(pattern, guess) and scores each guess by the histogram of patterns it would earn over the
pool.

The model has six modules:

- `Words` (`words.dfy`): constants, letter counting, and `Marked`, the number of copies of a
  letter a pattern marks green or yellow.
- `Seqs` (`seqs.dfy`): an order-preserving `Filter` (Python's `list(filter(…))`),
  subsequences, and the sum of a map's values.
- `Feedback` (`feedback.dfy`): `Pattern` is a declarative definition of the mark at each
  position. `GetPattern` is the source's three loops, proved equal to it. The lemmas prove
  the duplicate-letter rule.
- `Constraints` (`constraints.dfy`):
  - `Admits` lists every condition one observation places on a candidate word.
  - `BuildConstraints` is the source's table building, with its early exit on a conflict.
  - `FilterPool` is the pool after one observation.
  - The lemmas prove soundness, idempotence and order preservation.
- `Hebrew` (`hebrew.dfy`): the swap of a last letter between its regular and final form.
- `Solver` (`solver.dfy`): the class `WordleSolver`. Its field `solutions` is shrunk in
  place. It also covers the pattern histogram, the choice of the best guess, and the
  simulated game `VirtualSolve`.

Modelling choices:

- Words and patterns are strings (`seq<char>`). The two alphabets are sets of characters.
- The compiled regular expression (a character class per position) becomes "letter k of the
  word belongs to set k", for the first five letters of a word of at least five letters.
  Like `re.match`, it is not anchored at the end.
- `calculate_entropy` is split in two. The pattern histogram is modelled as a map holding
  the patterns that occur, each with its count. The entropy formula is a function parameter
  `entropy(histogram, poolSize)`.
- Reading a word list is a function parameter `wordList(fileName)` of the constructor.
- In the code, a letter that is grey somewhere and also green or yellow keeps its at-least
  entry beside its exact entry (`WordleSolver.py:131-134` copies, it does not move). The
  model does the same. The pair is harmless, since the exact count implies the lower bound.
- Both English file-name constants name the same file, so loading English solutions from
  `ENGLISH_GUESSES` (`WordleSolver.py:100`) behaves the same as loading them from
  `ENGLISH_SOLUTIONS`.

## Model

| member | source | states |
|---|---|---|
| Feedback.GetPattern | WordleSolver.py:60-87 | The three loops (count table, greens pass, yellows pass) produce exactly the declarative `Pattern`: green on a match, yellow while fewer non-green copies of the letter stand to the left than the solution has left after its greens, grey otherwise. |
| Feedback.CountLetters | WordleSolver.py:69-75 | The count table holds, for every letter, its number of occurrences in the solution, with a key exactly for the letters of the solution. |
| Feedback.MarkGreens | WordleSolver.py:76-80 | After the first pass, the positions where guess and solution agree are green and all others grey. Each letter's entry is its count minus its greens, and it never goes negative. |
| Feedback.MarkGreenAt | WordleSolver.py:77-80 | One step of the first pass keeps that state from position i to position i + 1. It needs the bound that greens never exceed the letter's count. |
| Feedback.MarkYellows | WordleSolver.py:81-86 | The second pass turns a grey position yellow exactly when fewer misses of its letter stand to its left than the table held after the greens. The table never goes negative. |
| Feedback.MarkYellowAt | WordleSolver.py:82-86 | One step of the second pass keeps that state from i to i + 1. Each letter's entry is its post-green count less its misses so far, stopping at zero. |
| Feedback.GreensBound | WordleSolver.py:76-80 | The greens of a letter never outnumber its copies in the solution (and in its prefix), so the decrement at `letter_counts[guess[i]] -= 1` never goes below zero. |
| Feedback.GreensPlusMisses | WordleSolver.py:76-86 | Every copy of a letter in the guess is either a green or a miss. |
| Feedback.MissesMonotone | WordleSolver.py:81-86 | The number of misses of a letter only grows from left to right. |
| Feedback.PatternShape | WordleSolver.py:68-87 | The pattern is as long as the guess. Every mark is 0, 1 or 2, and a position is green exactly when guess and solution agree there. |
| Feedback.AllGreenIffSolved | WordleSolver.py:77-80 | The pattern is all green exactly when the guess spells the start of the solution, so for equal lengths exactly when the guess is the solution. |
| Feedback.MarkedSplit | WordleSolver.py:69-86 | Up to any position, the marked copies of a letter are its greens plus as many misses as the leftover allows. |
| Feedback.MarkedIsMin | WordleSolver.py:69-86 | For every letter, the positions holding it and marked green or yellow number exactly min(count in guess, count in solution). |
| Feedback.NoYellowAfterGrey | WordleSolver.py:82-86 | Yellows go to the leftmost non-green copies: after a grey copy of a letter, no later copy of it is yellow. |
| Feedback.GreyMeansExact | WordleSolver.py:82-86 | If a copy of a letter is grey, the marked copies of that letter are exactly its count in the solution. |
| Feedback.AbbeyExample | WordleSolver.py:60-87 | The guess "abbey" against the solution "aabby" earns "21202". |
| Hebrew.TablesInverse | WordleSolver.py:16-17 | The regular-to-final and final-to-regular tables undo each other, and no regular letter is also a final one. |
| Hebrew.ProcessHebrewWord | WordleSolver.py:36-47 | A non-empty word keeps its length and every letter but the last. The last letter goes to its final form if it has one, back to its regular form if it is final, and is unchanged otherwise. |
| Hebrew.ProcessTwice | WordleSolver.py:42-47 | Normalising a non-empty word twice gives back the word. |
| Constraints.FilterPool | WordleSolver.py:103-146 | On a conflict the pool is unchanged. Otherwise every survivor is admitted by the observation, and every admitted word of the pool survives. |
| Constraints.BuildConstraints | WordleSolver.py:109-139 | The conflict flag is set exactly on a conflict; otherwise: **(1)** position k's set is its letters after the scan minus the grey-only letters; **(2)** the at-least pairs are the letters with a positive marked count, paired with that count; **(3)** the exactly pairs are those of them that are also grey. |
| Constraints.ScanPattern | WordleSolver.py:110-129 | The scan stops with a conflict exactly when a yellow follows a grey of the same letter. Otherwise: **(1)** each position's set is the guessed letter (green), the alphabet without it (grey or yellow), or the whole alphabet; **(2)** the at-least table is the `Marked` count; **(3)** `greys` holds exactly the grey letters. |
| Constraints.ExactCounts | WordleSolver.py:131-133 | The exactly table gives each grey letter with a positive at-least entry that entry, and nothing to any other letter. |
| Constraints.ConflictStep | WordleSolver.py:122-124 | Extending the scan by position j adds a conflict exactly when j is yellow and its letter is already in `greys`. |
| Constraints.ConflictMonotone | WordleSolver.py:123-124 | A conflict in a prefix remains one for the whole pattern, so the early return reports a conflict of the whole observation. |
| Constraints.GreyStep | WordleSolver.py:119-121 | Extending the scan by position j adds its letter to `greys` exactly when j is grey. |
| Constraints.RegexMatch | WordleSolver.py:18 | The compiled per-position character classes (lines 141-142) accept a word when each of its first five letters is in its position's class. A match needs at least five letters. |
| Constraints.RegexMatchUnanchored | WordleSolver.py:141-143 | Like `r.match`, the test is not anchored at the end. A word matches exactly when it has at least five letters and its first five letters match, and any tail may follow a match. |
| Words.CountIsMultiplicity | WordleSolver.py:50-57 | `Count`, the model of `word.count`, is the letter's multiplicity in the multiset of the word's letters. |
| Constraints.AtLeastFilter | WordleSolver.py:50-52 | A word passes exactly when, for every (letter, n) pair, the letter occurs at least n times, counted as its multiplicity in the word's letter multiset. |
| Constraints.ExactlyFilter | WordleSolver.py:55-57 | A word passes exactly when every (letter, n) pair's letter occurs exactly n times, and then it also passes the at-least filter on the same pairs. |
| Constraints.FiltersMatchAdmits | WordleSolver.py:50-57 | The regex filter, `atLeast_filter` and `exactly_filter` over the built tables together accept a word exactly when the observation admits it. |
| Constraints.ThreeFilters | WordleSolver.py:141-146 | The three successive order-preserving filters of the pool give exactly `FilterPool`. |
| Constraints.GreyOnlyAbsent | WordleSolver.py:134-137 | A five-letter survivor holds no copy of a letter that is grey and never green or yellow. |
| Constraints.GenuineNoConflict | WordleSolver.py:123-124 | A pattern produced by `get_pattern` never has a yellow after a grey of the same letter, so the early return cannot fire on it. |
| Constraints.SolutionSurvives | WordleSolver.py:190-193 | Soundness: filtering by the pattern a guess earns against the solution keeps the solution in the pool. The guess has at most five letters, and the solution's first five letters belong to the alphabet. |
| Constraints.FilterPoolIdempotent | WordleSolver.py:110-146 | Filtering twice by the same observation gives the same pool as filtering once. |
| Constraints.FilterPoolShrinks | WordleSolver.py:143-146 | The new pool is an order-preserving subsequence of the old one, so it never grows. |
| Solver.TallyTotal | WordleSolver.py:157-159 | The histogram's counts add up to the pool size. |
| Solver.TallyCounts | WordleSolver.py:157-159 | The histogram's count for a pattern equals the number of pool words that earn that pattern against the guess, and every pattern it holds has a positive count. |
| Solver.BestIsMax | WordleSolver.py:181-188 | The running maximum `Best` that the guess loop computes is at least -1 and no guess scores more. It is -1 with the empty word, or else the first guess to reach that score, every earlier guess scoring strictly less. |
| Solver.BestIsFirstBest | WordleSolver.py:181-188 | The word of the running maximum is the first strictly best guess, as `FirstBest` describes it. |
| Solver.FirstBestIsBest | WordleSolver.py:181-188 | Conversely, any word `FirstBest` describes is the running maximum's word, so the choice of guess is unique. |
| Solver.WordleSolver.constructor | WordleSolver.py:91-101 | Hebrew loads the Hebrew lists; English loads both lists from `ENGLISH_GUESSES`. The opening words are the language's precomputed list, whose first word has five letters. |
| Solver.WordleSolver.FilterSolutions | WordleSolver.py:103-146 | `solutions` becomes `FilterPool` of its old value: unchanged on a conflict, otherwise the admitted words in their old order. |
| Solver.WordleSolver.PatternHistogram | WordleSolver.py:155-159 | The loop computes the histogram of the pool. Its counts add up to the pool size, each count is the number of pool words earning that pattern, and no pattern is held with a count of zero. |
| Solver.WordleSolver.CalculateEntropy | WordleSolver.py:148-166 | The score of a guess is the entropy function of its histogram and the pool size. |
| Solver.WordleSolver.BestGuess | WordleSolver.py:181-188 | The loop's result is the running maximum `Best`, so its word is the first guess with the strictly greatest score (`FirstBest`). The score is at least -1 and no guess scores more; a score of -1 comes with the empty word. |
| Solver.WordleSolver.ChooseGuess | WordleSolver.py:178-188 | The first round plays the first precomputed opening word. Every later round plays the first strictly best guess over the current pool. The guess has at most five letters. |
| Solver.WordleSolver.PlayRound | WordleSolver.py:178-193 | The first round plays the opening word, a later round the first strictly best guess over the pool it starts from. The round is solved exactly when the guess spells the start of the solution, and then the pool is unchanged. Otherwise the pool is filtered by the earned pattern: it remains a subsequence and keeps an eligible solution. |
| Solver.WordleSolver.Turn | WordleSolver.py:175-193 | One round of the game loop, played from the last pool of the history, and the history extended by its guess and the pool it leaves. |
| Solver.WordleSolver.VirtualSolve | WordleSolver.py:168-194 | The result is -1 or 1..6. The ghost history lists each round's guess and starting pool, followed by the final pool, which is the current one. The first round plays the opening word on the initial pool. Every later round plays the first best guess over its own pool. Each pool is what the previous round left: unchanged on a solve, filtered otherwise. No round starts with a single candidate, and no round before the last one guessed the solution. A positive result is either the round after the last one played, when one candidate is left, or the number of rounds, when the last guess was the solution. -1 means six guesses were made, none of them the solution. The pool only loses words, in order, and keeps an eligible solution. |

## Left out

- File reading in `get_word_list` (`WordleSolver.py:24-33`) is I/O. The constructor takes it
  as the parameter `wordList`.
- `interactive_solve` (`WordleSolver.py:196-228`) and the `print` at `WordleSolver.py:189`
  are console interaction.
- The entropy formula with `log2` (`WordleSolver.py:160-166`) is floating-point numerics.
  The score is the function parameter `entropy` of the histogram and pool size.
- The division by zero that formula hits on an empty pool is not modelled, since the
  parameter is total.
- The 243-key pattern table (`WordleSolver.py:92`, reset at `WordleSolver.py:155`) is a
  cache. The histogram is a fresh map holding only the patterns that occur.
- Because of that cache, the `KeyError` the source raises for a guess whose pattern is not
  five marks long is not modelled.
- Solver.WordleSolver.PatternHistogram: requires only that the guess is no longer than any
  pool word. It does not require the five-letter guess the 243-key table needs.
- The textual regular expression (`WordleSolver.py:18`, `WordleSolver.py:141-142`) is
  modelled as per-position set membership. Its escaping of special characters and the
  empty character class of a position with no letters left are not modelled.
- The at-least and exactly lists (`WordleSolver.py:138-139`) are modelled as sets of
  (letter, count) pairs, not lists in dictionary order. Both filters test all pairs, so the
  order does not matter.
- The zero-valued key that the `defaultdict` read at `WordleSolver.py:132` inserts is not
  modelled. Entries of zero never reach the filters.
- Constraints.BuildConstraints: requires a pattern no longer than five and no longer than the
  guess. Python fails with `IndexError` only when a mark `0`, `1` or `2` stands beyond one of
  those bounds, and skips any other character there.
- Solver.WordleSolver.VirtualSolve: requires guesses of at most five letters. A longer guess
  makes `get_pattern` raise `IndexError` against a five-letter word. A shorter guess makes
  the source raise `KeyError` in the 243-key table (`WordleSolver.py:159`). The model does
  not reproduce that error and scores such a guess like any other (see above).
- Solver.WordleSolver.VirtualSolve: requires pool words of at least five letters. This is
  the five-letter modelling choice, not something the source needs. The source's first-round
  regular expression drops shorter pool words before any score is computed, so they never
  reach `get_pattern`. The requirement of a solution with at least five letters matches the
  `IndexError` that `get_pattern` raises for a shorter one (`WordleSolver.py:78`) whenever
  the first round is played. An initial pool of one word returns 1 before any pattern is
  computed (`WordleSolver.py:176-177`), and then a shorter solution raises nothing.
- Feedback.GetPattern: requires a guess no longer than the solution. The source raises
  `IndexError` for a longer guess (`WordleSolver.py:78`), and that error is not modelled.
- Hebrew.ProcessHebrewWord: requires a non-empty word. The source raises `IndexError` on the
  empty word (`WordleSolver.py:42`), and that error is not modelled.
