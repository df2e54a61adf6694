/** The solver object: the candidate pool it shrinks, the pattern histogram behind
    its guess scores, the choice of the best guess and the simulated game. */
module Solver {
  import opened Words
  import opened Seqs
  import opened Feedback
  import opened Constraints

  /** Names of the word lists; both English lists are the same file. */
  const HEBREW_GUESSES: string := "hebrewwordlist.txt"
  const HEBREW_SOLUTIONS: string := "hebrewwordlist.txt"
  const ENGLISH_GUESSES: string := "englishwordlist.txt"
  const ENGLISH_SOLUTIONS: string := "englishwordlist.txt"

  /** Precomputed opening words with their scores, best first. */
  const FIRST_ENGLISH_GUESS: seq<(string, real)> :=
    [("raise", 5.877), ("slate", 5.855), ("crate", 5.834), ("irate", 5.831), ("trace", 5.830)]
  const FIRST_HEBREW_GUESS: seq<(string, real)> :=
    [("מילות", 5.985), ("מניות", 5.983), ("הורית", 5.960), ("מונית", 5.938), ("משרות", 5.935)]

  /** The initial best score: every real score of a guess beats it. */
  const NO_SCORE: real := -1.0

  /** Every word of the pool is at least as long as the guess, so its pattern exists. */
  predicate Scorable(guess: string, pool: seq<string>)
  {
    forall i :: 0 <= i < |pool| ==> |guess| <= |pool[i]|
  }

  /** One more solution with pattern p in a histogram. */
  function Bump(counts: map<string, nat>, p: string): map<string, nat>
  {
    counts[p := (if p in counts then counts[p] else 0) + 1]
  }

  /** The histogram of the patterns the guess earns against the words of the pool. */
  function Tally(guess: string, pool: seq<string>): map<string, nat>
    requires Scorable(guess, pool)
  {
    if |pool| == 0 then map[]
    else Bump(Tally(guess, pool[..|pool| - 1]), Pattern(guess, pool[|pool| - 1]))
  }

  /** The histogram's counts add up to the size of the pool. */
  lemma {:induction false} TallyTotal(guess: string, pool: seq<string>)
    requires Scorable(guess, pool)
    ensures Total(Tally(guess, pool)) == |pool|
  {
    if |pool| > 0 {
      var init := pool[..|pool| - 1];
      TallyTotal(guess, init);
      TotalBump(Tally(guess, init), Pattern(guess, pool[|pool| - 1]));
    }
  }

  /** The histogram's count for a pattern is the number of pool words that earn it,
      and every pattern it holds is earned by at least one. */
  lemma {:induction false} TallyCounts(guess: string, pool: seq<string>, p: string)
    requires Scorable(guess, pool)
    ensures (if p in Tally(guess, pool) then Tally(guess, pool)[p] else 0)
            == |Filter(pool, s => |guess| <= |s| && Pattern(guess, s) == p)|
    ensures p in Tally(guess, pool) ==> Tally(guess, pool)[p] > 0
  {
    if |pool| > 0 {
      var init, last := pool[..|pool| - 1], pool[|pool| - 1];
      TallyCounts(guess, init, p);
      assert pool == init + [last];
      FilterAppend(init, last, s => |guess| <= |s| && Pattern(guess, s) == p);
    }
  }

  /** The score of a guess: the entropy function applied to its pattern histogram over the pool. */
  function Score(guess: string, pool: seq<string>, entropy: (map<string, nat>, nat) -> real): real
    requires Scorable(guess, pool)
  {
    entropy(Tally(guess, pool), |pool|)
  }

  /** Every word of the list is short enough to be scored against every word of the pool. */
  predicate AllScorable(guesses: seq<string>, pool: seq<string>)
  {
    forall i :: 0 <= i < |guesses| ==> Scorable(guesses[i], pool)
  }

  /** The guess the solver picks from the list: the first one with the strictly greatest
      score, or the empty word when no score beats the initial -1. */
  predicate FirstBest(guesses: seq<string>, pool: seq<string>, entropy: (map<string, nat>, nat) -> real, w: string)
    requires AllScorable(guesses, pool)
  {
    if forall j :: 0 <= j < |guesses| ==> Score(guesses[j], pool, entropy) <= NO_SCORE then w == ""
    else exists k :: 0 <= k < |guesses| && w == guesses[k]
                     && (forall j :: 0 <= j < k ==> Score(guesses[j], pool, entropy) < Score(guesses[k], pool, entropy))
                     && (forall j :: k <= j < |guesses| ==> Score(guesses[j], pool, entropy) <= Score(guesses[k], pool, entropy))
  }

  /** The solver's running maximum over the list: the word and score it holds after
      seeing every guess, starting from the empty word and -1 and replacing them only
      on a strictly greater score. */
  function Best(guesses: seq<string>, pool: seq<string>, entropy: (map<string, nat>, nat) -> real): (string, real)
    requires AllScorable(guesses, pool)
    decreases |guesses|
  {
    if |guesses| == 0 then ("", NO_SCORE)
    else
      var prev := Best(guesses[..|guesses| - 1], pool, entropy);
      var score := Score(guesses[|guesses| - 1], pool, entropy);
      if score > prev.1 then (guesses[|guesses| - 1], score) else prev
  }

  /** The running maximum is at least -1 and no guess scores more; it is -1 with the empty
      word, or the score of the first guess reaching it. */
  lemma {:induction false} BestIsMax(guesses: seq<string>, pool: seq<string>, entropy: (map<string, nat>, nat) -> real)
    requires AllScorable(guesses, pool)
    ensures Best(guesses, pool, entropy).1 >= NO_SCORE
    ensures forall j :: 0 <= j < |guesses| ==> Score(guesses[j], pool, entropy) <= Best(guesses, pool, entropy).1
    ensures Best(guesses, pool, entropy).1 == NO_SCORE ==> Best(guesses, pool, entropy).0 == ""
    ensures Best(guesses, pool, entropy).1 != NO_SCORE ==>
      exists k :: 0 <= k < |guesses| && Best(guesses, pool, entropy).0 == guesses[k]
                  && Score(guesses[k], pool, entropy) == Best(guesses, pool, entropy).1
                  && forall j :: 0 <= j < k ==> Score(guesses[j], pool, entropy) < Best(guesses, pool, entropy).1
    decreases |guesses|
  {
    if |guesses| > 0 {
      var n := |guesses| - 1;
      var init := guesses[..n];
      assert forall j :: 0 <= j < n ==> init[j] == guesses[j];
      BestIsMax(init, pool, entropy);
      var prev := Best(init, pool, entropy);
      if Score(guesses[n], pool, entropy) <= prev.1 && prev.1 != NO_SCORE {
        var k :| 0 <= k < n && prev.0 == init[k] && Score(init[k], pool, entropy) == prev.1
                 && forall j :: 0 <= j < k ==> Score(init[j], pool, entropy) < prev.1;
        assert guesses[k] == init[k];
      }
    }
  }

  /** The running maximum's word is the one FirstBest describes. */
  lemma BestIsFirstBest(guesses: seq<string>, pool: seq<string>, entropy: (map<string, nat>, nat) -> real)
    requires AllScorable(guesses, pool)
    ensures FirstBest(guesses, pool, entropy, Best(guesses, pool, entropy).0)
  {
    BestIsMax(guesses, pool, entropy);
  }

  /** Conversely, the only word FirstBest describes is the running maximum's, so it names
      a single word. */
  lemma FirstBestIsBest(guesses: seq<string>, pool: seq<string>, entropy: (map<string, nat>, nat) -> real, w: string)
    requires AllScorable(guesses, pool) && FirstBest(guesses, pool, entropy, w)
    ensures w == Best(guesses, pool, entropy).0
  {
    BestIsMax(guesses, pool, entropy);
    var best := Best(guesses, pool, entropy);
    if !forall j :: 0 <= j < |guesses| ==> Score(guesses[j], pool, entropy) <= NO_SCORE {
      var k :| 0 <= k < |guesses| && w == guesses[k]
               && (forall j :: 0 <= j < k ==> Score(guesses[j], pool, entropy) < Score(guesses[k], pool, entropy))
               && (forall j :: k <= j < |guesses| ==> Score(guesses[j], pool, entropy) <= Score(guesses[k], pool, entropy));
      var b :| 0 <= b < |guesses| && best.0 == guesses[b] && Score(guesses[b], pool, entropy) == best.1
               && forall j :: 0 <= j < b ==> Score(guesses[j], pool, entropy) < best.1;
      assert b == k;
    }
  }

  /** Every word of the pool has at least five letters. */
  predicate LongWords(pool: seq<string>)
  {
    forall i :: 0 <= i < |pool| ==> |pool[i]| >= WORD_LENGTH
  }

  /** The pool after a round that did not solve the game: filtered by the pattern
      the guess earned against the solution. */
  function NextPool(pool: seq<string>, guess: string, solution: string, alphabet: set<char>): seq<string>
    requires |guess| <= WORD_LENGTH <= |solution|
  {
    FilterPool(pool, Pattern(guess, solution), guess, alphabet)
  }

  /** The pool after any round: unchanged when the guess was the solution, filtered otherwise. */
  function AfterRound(pool: seq<string>, guess: string, solution: string, alphabet: set<char>): seq<string>
    requires |guess| <= WORD_LENGTH <= |solution|
  {
    if guess == solution[..WORD_LENGTH] then pool else NextPool(pool, guess, solution, alphabet)
  }

  /** The rounds of a game: played[r] is the guess of round r and pools[r] the pool it
      starts from; pools has one more entry, the pool the last round left, and each
      entry after the first is what the previous round left. */
  predicate Rounds(pools: seq<seq<string>>, played: seq<string>, solution: string, alphabet: set<char>)
  {
    && |pools| == |played| + 1
    && |solution| >= WORD_LENGTH
    && (forall r :: 0 <= r < |played| ==> |played[r]| <= WORD_LENGTH)
    && (forall r :: 0 <= r < |played| ==> pools[r + 1] == AfterRound(pools[r], played[r], solution, alphabet))
  }

  /** A round played from the pool the last one left extends the game. */
  lemma RoundsAppend(pools: seq<seq<string>>, played: seq<string>, solution: string, alphabet: set<char>,
                     guess: string, after: seq<string>)
    requires Rounds(pools, played, solution, alphabet) && |guess| <= WORD_LENGTH
    requires after == AfterRound(pools[|played|], guess, solution, alphabet)
    ensures Rounds(pools + [after], played + [guess], solution, alphabet)
  {
    var pools', played' := pools + [after], played + [guess];
    forall r | 0 <= r < |played'|
      ensures pools'[r + 1] == AfterRound(pools'[r], played'[r], solution, alphabet)
    {
      if r < |played| {
        assert pools'[r + 1] == pools[r + 1] && pools'[r] == pools[r] && played'[r] == played[r];
      }
    }
  }

  class WordleSolver {
    /** Whether the game is played in Hebrew (otherwise English). */
    const hebrew: bool
    /** The words the solver may guess. */
    const guesses: seq<string>
    /** The words that may still be the solution. */
    var solutions: seq<string>
    /** The opening words with their precomputed scores. */
    const firstWords: seq<(string, real)>

    /** Loads the two word lists of the chosen language through wordList, which reads
        a file into its lines. The English solutions come from the guesses file. */
    constructor(hebrew: bool, wordList: string -> seq<string>)
      ensures this.hebrew == hebrew
      ensures guesses == wordList(if hebrew then HEBREW_GUESSES else ENGLISH_GUESSES)
      ensures solutions == wordList(if hebrew then HEBREW_SOLUTIONS else ENGLISH_GUESSES)
      ensures firstWords == (if hebrew then FIRST_HEBREW_GUESS else FIRST_ENGLISH_GUESS)
      ensures |firstWords| > 0 && |firstWords[0].0| == WORD_LENGTH
    {
      this.hebrew := hebrew;
      if hebrew {
        guesses := wordList(HEBREW_GUESSES);
        solutions := wordList(HEBREW_SOLUTIONS);
        firstWords := FIRST_HEBREW_GUESS;
      } else {
        guesses := wordList(ENGLISH_GUESSES);
        solutions := wordList(ENGLISH_GUESSES);
        firstWords := FIRST_ENGLISH_GUESS;
      }
    }

    /** Shrinks the pool by one observation: a conflicting observation leaves it alone,
        otherwise the three filters built from its tables keep the admitted words in order. */
    method FilterSolutions(pattern: string, guess: string)
      requires |pattern| <= WORD_LENGTH && |pattern| <= |guess|
      modifies this
      ensures solutions == FilterPool(old(solutions), pattern, guess, Alphabet(hebrew))
    {
      var alphabet := Alphabet(hebrew);
      var conflict, letters, atLeastFilters, exactlyFilters := BuildConstraints(pattern, guess, alphabet);
      if conflict {
        return;
      }
      ghost var pool := solutions;
      var regex := w => RegexMatch(letters, w);
      var atLeast := w => AtLeastFilter(w, atLeastFilters);
      var exactly := w => ExactlyFilter(w, exactlyFilters);
      solutions := Filter(solutions, regex);
      solutions := Filter(solutions, atLeast);
      solutions := Filter(solutions, exactly);
      ThreeFilters(pool, pattern, guess, alphabet, letters, atLeastFilters, exactlyFilters, regex, atLeast, exactly);
    }

    /** Counts how many pool words fall under each pattern of the guess. */
    method PatternHistogram(guess: string) returns (counts: map<string, nat>)
      requires Scorable(guess, solutions)
      ensures counts == Tally(guess, solutions)
      ensures Total(counts) == |solutions|
      ensures forall p :: (if p in counts then counts[p] else 0)
                          == |Filter(solutions, s => |guess| <= |s| && Pattern(guess, s) == p)|
      ensures forall p :: p in counts ==> counts[p] > 0
    {
      counts := map[];
      for k := 0 to |solutions|
        invariant counts == Tally(guess, solutions[..k])
      {
        var pattern := GetPattern(guess, solutions[k]);
        counts := counts[pattern := (if pattern in counts then counts[pattern] else 0) + 1];
        assert solutions[..k + 1][..k] == solutions[..k];
      }
      assert solutions[..|solutions|] == solutions;
      TallyTotal(guess, solutions);
      forall p ensures (if p in counts then counts[p] else 0)
                       == |Filter(solutions, s => |guess| <= |s| && Pattern(guess, s) == p)|
                       && (p in counts ==> counts[p] > 0)
      {
        TallyCounts(guess, solutions, p);
      }
    }

    /** The score of a guess over the current pool, computed from its histogram. */
    method CalculateEntropy(guess: string, entropy: (map<string, nat>, nat) -> real) returns (score: real)
      requires Scorable(guess, solutions)
      ensures score == Score(guess, solutions, entropy)
    {
      var counts := PatternHistogram(guess);
      score := entropy(counts, |solutions|);
    }

    /** The first guess with the strictly greatest score, against an initial best of -1
        and the empty word. */
    method BestGuess(entropy: (map<string, nat>, nat) -> real) returns (maxWord: string, maxEntropy: real)
      requires AllScorable(guesses, solutions)
      ensures (maxWord, maxEntropy) == Best(guesses, solutions, entropy)
      ensures FirstBest(guesses, solutions, entropy, maxWord)
      ensures maxEntropy >= NO_SCORE
      ensures forall j :: 0 <= j < |guesses| ==> Score(guesses[j], solutions, entropy) <= maxEntropy
      ensures maxEntropy == NO_SCORE ==> maxWord == ""
      ensures maxEntropy != NO_SCORE ==>
        exists k :: 0 <= k < |guesses| && maxWord == guesses[k] && Score(guesses[k], solutions, entropy) == maxEntropy
    {
      maxEntropy := NO_SCORE;
      maxWord := "";
      for i := 0 to |guesses|
        invariant AllScorable(guesses[..i], solutions)
        invariant (maxWord, maxEntropy) == Best(guesses[..i], solutions, entropy)
      {
        var word := guesses[i];
        var score := CalculateEntropy(word, entropy);
        assert guesses[..i + 1][..i] == guesses[..i];
        if score > maxEntropy {
          maxWord, maxEntropy := word, score;
        }
      }
      assert guesses[..|guesses|] == guesses;
      BestIsMax(guesses, solutions, entropy);
      BestIsFirstBest(guesses, solutions, entropy);
    }

    /** The guess of a round: the opening word in the first round, the first
        best-scoring guess over the current pool after. */
    method ChooseGuess(first: bool, entropy: (map<string, nat>, nat) -> real) returns (guess: string)
      requires |firstWords| > 0 && |firstWords[0].0| == WORD_LENGTH
      requires forall i :: 0 <= i < |guesses| ==> |guesses[i]| <= WORD_LENGTH
      requires LongWords(solutions)
      ensures first ==> guess == firstWords[0].0
      ensures !first ==> AllScorable(guesses, solutions) && guess == Best(guesses, solutions, entropy).0
      ensures !first ==> FirstBest(guesses, solutions, entropy, guess)
      ensures |guess| <= WORD_LENGTH
    {
      if first {
        guess := firstWords[0].0;
      } else {
        var score;
        guess, score := BestGuess(entropy);
      }
    }

    /** One round of a simulated game: the opening word in the first round, the
        best-scoring guess after; the round is won on an all-green pattern, and
        otherwise the pool is filtered by the pattern the guess earned. */
    method PlayRound(first: bool, solution: string, entropy: (map<string, nat>, nat) -> real)
      returns (guess: string, solved: bool)
      requires |firstWords| > 0 && |firstWords[0].0| == WORD_LENGTH
      requires |solution| >= WORD_LENGTH
      requires forall i :: 0 <= i < |guesses| ==> |guesses[i]| <= WORD_LENGTH
      requires forall i :: 0 <= i < |solutions| ==> |solutions[i]| >= WORD_LENGTH
      modifies this
      ensures first ==> guess == firstWords[0].0
      ensures !first ==> AllScorable(guesses, old(solutions)) && guess == Best(guesses, old(solutions), entropy).0
      ensures !first ==> FirstBest(guesses, old(solutions), entropy, guess)
      ensures |guess| <= WORD_LENGTH
      ensures solved <==> guess == solution[..WORD_LENGTH]
      ensures solved ==> solutions == old(solutions)
      ensures !solved ==> solutions == NextPool(old(solutions), guess, solution, Alphabet(hebrew))
      ensures forall i :: 0 <= i < |solutions| ==> |solutions[i]| >= WORD_LENGTH
      ensures IsSubsequence(solutions, old(solutions))
      ensures solution in old(solutions) && (forall k :: 0 <= k < WORD_LENGTH ==> solution[k] in Alphabet(hebrew))
              ==> solution in solutions
    {
      guess := ChooseGuess(first, entropy);
      var pattern := GetPattern(guess, solution);
      AllGreenIffSolved(guess, solution);
      PatternShape(guess, solution);
      solved := pattern == AllGreen(WORD_LENGTH);
      ghost var before := solutions;
      if solved {
        SubsequenceReflexive(before);
      } else {
        FilterSolutions(pattern, guess);
        FilterPoolShrinks(before, pattern, guess, Alphabet(hebrew));
        if solution in before && forall k :: 0 <= k < WORD_LENGTH ==> solution[k] in Alphabet(hebrew) {
          SolutionSurvives(before, guess, solution, Alphabet(hebrew));
        }
      }
    }

    /** The history of a game that started from pool: the rounds of Rounds, each starting
        with more or less than one candidate; the first plays the opening word and every
        later one the first best-scoring guess over its own pool. */
    ghost predicate Played(pool: seq<string>, pools: seq<seq<string>>, played: seq<string>, solution: string,
                           entropy: (map<string, nat>, nat) -> real)
    {
      && Rounds(pools, played, solution, Alphabet(hebrew))
      && pools[0] == pool
      && (|played| > 0 ==> |firstWords| > 0 && played[0] == firstWords[0].0)
      && (forall r :: 0 <= r < |played| ==> |pools[r]| != 1)
      && (forall r :: 0 < r < |played| ==> AllScorable(guesses, pools[r]) && played[r] == Best(guesses, pools[r], entropy).0)
    }

    /** A round played from the pool the history left extends the history. */
    lemma PlayedAppend(pool: seq<string>, pools: seq<seq<string>>, played: seq<string>, solution: string,
                       entropy: (map<string, nat>, nat) -> real, guess: string, after: seq<string>)
      requires Played(pool, pools, played, solution, entropy)
      requires |pools[|played|]| != 1 && |guess| <= WORD_LENGTH
      requires |played| == 0 ==> |firstWords| > 0 && guess == firstWords[0].0
      requires |played| > 0 ==> AllScorable(guesses, pools[|played|]) && guess == Best(guesses, pools[|played|], entropy).0
      requires after == AfterRound(pools[|played|], guess, solution, Alphabet(hebrew))
      ensures Played(pool, pools + [after], played + [guess], solution, entropy)
    {
      RoundsAppend(pools, played, solution, Alphabet(hebrew), guess, after);
      var pools', played' := pools + [after], played + [guess];
      assert forall r :: 0 <= r < |pools| ==> pools'[r] == pools[r];
      assert forall r :: 0 <= r < |played| ==> played'[r] == played[r];
    }

    /** One round of VirtualSolve with its history: the round is played from the pool
        the history left, and the guess and the new pool are appended to the history. */
    method Turn(first: bool, solution: string, entropy: (map<string, nat>, nat) -> real,
                ghost pool: seq<string>, ghost pools: seq<seq<string>>, ghost played: seq<string>)
      returns (guess: string, solved: bool, ghost pools': seq<seq<string>>, ghost played': seq<string>)
      requires |firstWords| > 0 && |firstWords[0].0| == WORD_LENGTH
      requires forall i :: 0 <= i < |guesses| ==> |guesses[i]| <= WORD_LENGTH
      requires Played(pool, pools, played, solution, entropy) && (first <==> |played| == 0)
      requires solutions == pools[|played|] && LongWords(solutions) && |solutions| != 1
      modifies this
      ensures played' == played + [guess] && pools' == pools + [solutions]
      ensures Played(pool, pools', played', solution, entropy)
      ensures solved <==> guess == solution[..WORD_LENGTH]
      ensures LongWords(solutions) && IsSubsequence(solutions, old(solutions))
      ensures solution in old(solutions) && (forall k :: 0 <= k < WORD_LENGTH ==> solution[k] in Alphabet(hebrew))
              ==> solution in solutions
    {
      guess, solved := PlayRound(first, solution, entropy);
      PlayedAppend(pool, pools, played, solution, entropy, guess, solutions);
      pools', played' := pools + [solutions], played + [guess];
    }

    /** Plays a game against a known solution for at most NUM_OF_TRIES rounds; a round
        with a single candidate left, or one whose guess is the solution, ends the game.
        Returns the number of rounds used, or -1; played lists the guesses made and pools
        the pool each of those rounds started from, followed by the final pool. */
    method VirtualSolve(solution: string, entropy: (map<string, nat>, nat) -> real)
      returns (tries: int, ghost played: seq<string>, ghost pools: seq<seq<string>>)
      requires |firstWords| > 0 && |firstWords[0].0| == WORD_LENGTH
      requires |solution| >= WORD_LENGTH
      requires forall i :: 0 <= i < |guesses| ==> |guesses[i]| <= WORD_LENGTH
      requires forall i :: 0 <= i < |solutions| ==> |solutions[i]| >= WORD_LENGTH
      modifies this
      ensures tries == -1 || 1 <= tries <= NUM_OF_TRIES
      ensures Played(old(solutions), pools, played, solution, entropy) && |played| <= NUM_OF_TRIES
      ensures solutions == pools[|played|]
      ensures IsSubsequence(solutions, old(solutions))
      ensures solution in old(solutions) && (forall k :: 0 <= k < WORD_LENGTH ==> solution[k] in Alphabet(hebrew))
              ==> solution in solutions
      // the game stops at the first round whose guess is the solution
      ensures forall r :: 0 <= r < |played| - 1 ==> played[r] != solution[..WORD_LENGTH]
      ensures solution[..WORD_LENGTH] in played <==>
              tries > 0 && |played| == tries && played[tries - 1] == solution[..WORD_LENGTH]
      // the game stops at the first round that starts with a single candidate
      ensures tries > 0 ==> (|played| == tries - 1 && |solutions| == 1)
                            || (|played| == tries && played[tries - 1] == solution[..WORD_LENGTH])
      ensures tries == -1 ==> |played| == NUM_OF_TRIES
    {
      ghost var pool := solutions;
      SubsequenceReflexive(pool);
      played, pools := [], [pool];
      for i := 0 to NUM_OF_TRIES
        invariant Played(pool, pools, played, solution, entropy) && |played| == i
        invariant solutions == pools[i] && LongWords(solutions)
        invariant solution[..WORD_LENGTH] !in played
        invariant IsSubsequence(solutions, pool)
        invariant solution in pool && (forall k :: 0 <= k < WORD_LENGTH ==> solution[k] in Alphabet(hebrew))
                  ==> solution in solutions
      {
        if |solutions| == 1 {
          return i + 1, played, pools;
        }
        ghost var before := solutions;
        var guess, solved;
        guess, solved, pools, played := Turn(i == 0, solution, entropy, pool, pools, played);
        SubsequenceTransitive(solutions, before, pool);
        if solved {
          return i + 1, played, pools;
        }
      }
      tries := -1;
    }
  }
}
