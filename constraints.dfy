/** Candidate filtering: what one (pattern, guess) observation says about the
    solution, the tables the solver builds from it, and the shrunken pool. */
module Constraints {
  import opened Words
  import opened Seqs
  import opened Feedback

  /** Some position before n is grey and holds c: c is in the source's `greys` list. */
  predicate GreyBefore(pattern: string, guess: string, c: char, n: nat)
    requires n <= |pattern| <= |guess|
  {
    exists i :: 0 <= i < n && pattern[i] == GREY && guess[i] == c
  }

  /** Some yellow before n follows an earlier grey of the same letter. */
  predicate ConflictBefore(pattern: string, guess: string, n: nat)
    requires n <= |pattern| <= |guess|
  {
    exists i, j :: 0 <= i < j < n && pattern[i] == GREY && pattern[j] == YELLOW && guess[i] == guess[j]
  }

  /** The observation contradicts itself in the way the solver rejects:
      a yellow after a grey of the same letter. */
  predicate Conflict(pattern: string, guess: string)
    requires |pattern| <= |guess|
  {
    ConflictBefore(pattern, guess, |pattern|)
  }

  /** A letter that is grey somewhere and never green or yellow: it must not occur at all. */
  predicate GreyOnly(pattern: string, guess: string, c: char)
    requires |pattern| <= |guess|
  {
    GreyBefore(pattern, guess, c, |pattern|) && Marked(pattern, guess, c, |pattern|) == 0
  }

  /** The letters position k may hold after the scan of the pattern, before grey-only
      letters are removed: the guessed letter at a green, the alphabet without the
      guessed letter at a grey or yellow, the whole alphabet elsewhere. */
  function AllowedAt(pattern: string, guess: string, alphabet: set<char>, k: nat): set<char>
    requires |pattern| <= |guess|
  {
    if k < |pattern| && pattern[k] == GREEN then {guess[k]}
    else if k < |pattern| && (pattern[k] == GREY || pattern[k] == YELLOW) then alphabet - {guess[k]}
    else alphabet
  }

  /** Every condition the observation places on a candidate word w. */
  predicate Admits(pattern: string, guess: string, alphabet: set<char>, w: string)
    requires |pattern| <= WORD_LENGTH && |pattern| <= |guess|
  {
    && |w| >= WORD_LENGTH
    // the guessed letter at every green position
    && (forall k :: 0 <= k < |pattern| && pattern[k] == GREEN ==> w[k] == guess[k])
    // not the guessed letter at a grey or yellow position
    && (forall k :: 0 <= k < |pattern| && (pattern[k] == GREY || pattern[k] == YELLOW) ==> w[k] != guess[k])
    // a letter of the alphabet wherever no green fixes it
    && (forall k :: 0 <= k < WORD_LENGTH && !(k < |pattern| && pattern[k] == GREEN) ==> w[k] in alphabet)
    // no grey-only letter in any of the five positions
    && (forall k :: 0 <= k < WORD_LENGTH ==> !GreyOnly(pattern, guess, w[k]))
    // at least as many copies of each letter as were marked green or yellow
    && (forall c :: Marked(pattern, guess, c, |pattern|) <= Count(w, c))
    // exactly that many when the letter was also grey
    && (forall c :: GreyBefore(pattern, guess, c, |pattern|) && Marked(pattern, guess, c, |pattern|) > 0
                   ==> Count(w, c) == Marked(pattern, guess, c, |pattern|))
  }

  /** The compiled per-position character classes, matched against the start of w;
      a match needs at least five letters. */
  function RegexMatch(letters: seq<set<char>>, w: string): (r: bool)
    ensures r ==> |w| >= WORD_LENGTH
  {
    |w| >= WORD_LENGTH && |letters| >= WORD_LENGTH && forall k :: 0 <= k < WORD_LENGTH ==> w[k] in letters[k]
  }

  /** The match is not anchored at the end: only the first five letters are tested,
      and anything may follow them. */
  lemma RegexMatchUnanchored(letters: seq<set<char>>, w: string, tail: string)
    ensures RegexMatch(letters, w) <==> |w| >= WORD_LENGTH && RegexMatch(letters, w[..WORD_LENGTH])
    ensures RegexMatch(letters, w) ==> RegexMatch(letters, w + tail)
  {
    if |w| >= WORD_LENGTH {
      assert forall k :: 0 <= k < WORD_LENGTH ==> w[..WORD_LENGTH][k] == w[k] && (w + tail)[k] == w[k];
    }
  }

  /** Every (letter, n) requirement holds with at least n copies (the source's
      `atLeast_filter`); a copy is an element of the word's letter multiset. */
  function AtLeastFilter(w: string, filters: set<(char, nat)>): (r: bool)
    ensures r <==> forall f | f in filters :: multiset(w)[f.0] >= f.1
  {
    CountsAreMultiplicities(w);
    forall f | f in filters :: Count(w, f.0) >= f.1
  }

  /** Every (letter, n) requirement holds with exactly n copies (the source's
      `exactly_filter`); meeting it also meets the at-least requirement on the same pairs. */
  function ExactlyFilter(w: string, filters: set<(char, nat)>): (r: bool)
    ensures r <==> forall f | f in filters :: multiset(w)[f.0] == f.1
    ensures r ==> AtLeastFilter(w, filters)
  {
    CountsAreMultiplicities(w);
    forall f | f in filters :: Count(w, f.0) == f.1
  }

  /** Count agrees with the letter multiset for every letter. */
  lemma CountsAreMultiplicities(w: string)
    ensures forall c :: Count(w, c) == multiset(w)[c]
  {
    forall c ensures Count(w, c) == multiset(w)[c] {
      CountIsMultiplicity(w, c);
    }
  }

  /** The pool after one observation: unchanged on a conflict, otherwise the
      admitted words in their original order. */
  function FilterPool(pool: seq<string>, pattern: string, guess: string, alphabet: set<char>): (r: seq<string>)
    requires |pattern| <= WORD_LENGTH && |pattern| <= |guess|
    ensures Conflict(pattern, guess) ==> r == pool
    ensures !Conflict(pattern, guess) ==> forall i :: 0 <= i < |r| ==> Admits(pattern, guess, alphabet, r[i])
    ensures !Conflict(pattern, guess) ==>
      forall i :: 0 <= i < |pool| && Admits(pattern, guess, alphabet, pool[i]) ==> pool[i] in r
  {
    if Conflict(pattern, guess) then pool else Filter(pool, w => Admits(pattern, guess, alphabet, w))
  }

  /** The solver's table building: the per-position letter sets, the at-least and
      exactly tables as (letter, count) pairs, and whether the scan stopped early on
      a yellow after a grey of the same letter. */
  method BuildConstraints(pattern: string, guess: string, alphabet: set<char>)
    returns (conflict: bool, letters: seq<set<char>>, atLeastFilters: set<(char, nat)>, exactlyFilters: set<(char, nat)>)
    requires |pattern| <= WORD_LENGTH && |pattern| <= |guess|
    ensures conflict == Conflict(pattern, guess)
    ensures !conflict ==> |letters| == WORD_LENGTH
    ensures !conflict ==> forall k, x :: 0 <= k < WORD_LENGTH ==>
      (x in letters[k] <==> x in AllowedAt(pattern, guess, alphabet, k) && !GreyOnly(pattern, guess, x))
    ensures !conflict ==> forall f :: f in atLeastFilters <==> f.1 > 0 && f.1 == Marked(pattern, guess, f.0, |pattern|)
    ensures !conflict ==> forall f :: f in exactlyFilters <==>
      f.1 > 0 && f.1 == Marked(pattern, guess, f.0, |pattern|) && GreyBefore(pattern, guess, f.0, |pattern|)
  {
    var atLeast, greys;
    conflict, letters, atLeast, greys := ScanPattern(pattern, guess, alphabet);
    if conflict {
      return conflict, letters, {}, {};
    }
    // letters both grey and marked get an exact count
    var exactly := ExactCounts(greys, atLeast);
    var greyOnly := Filter(greys, x => !(Get(atLeast, x) > 0));
    // remove the grey-only letters from every position
    for k := 0 to WORD_LENGTH
      invariant |letters| == WORD_LENGTH
      invariant forall m :: 0 <= m < WORD_LENGTH ==>
        letters[m] == (if m < k then set x | x in AllowedAt(pattern, guess, alphabet, m) && x !in greyOnly
                       else AllowedAt(pattern, guess, alphabet, m))
    {
      letters := letters[k := set x | x in letters[k] && x !in greyOnly];
    }
    forall x ensures x in greyOnly <==> GreyOnly(pattern, guess, x) {
      if GreyOnly(pattern, guess, x) {
        var i :| 0 <= i < |greys| && greys[i] == x;
      }
    }
    atLeastFilters := set c | c in atLeast && atLeast[c] > 0 :: (c, atLeast[c]);
    exactlyFilters := set c | c in exactly && exactly[c] > 0 :: (c, exactly[c]);
  }

  /** The scan over the pattern: per-position sets, the at-least tally and the
      list of grey letters; stops with a conflict at a yellow whose letter is already grey. */
  method ScanPattern(pattern: string, guess: string, alphabet: set<char>)
    returns (conflict: bool, letters: seq<set<char>>, atLeast: map<char, nat>, greys: seq<char>)
    requires |pattern| <= WORD_LENGTH && |pattern| <= |guess|
    ensures conflict == Conflict(pattern, guess)
    ensures !conflict ==> |letters| == WORD_LENGTH
    ensures !conflict ==> forall k :: 0 <= k < WORD_LENGTH ==> letters[k] == AllowedAt(pattern, guess, alphabet, k)
    ensures !conflict ==> forall c :: Get(atLeast, c) == Marked(pattern, guess, c, |pattern|)
    ensures !conflict ==> forall c :: c in greys <==> GreyBefore(pattern, guess, c, |pattern|)
  {
    letters := seq(WORD_LENGTH, _ => alphabet);
    atLeast := map[];
    greys := [];
    for j := 0 to |pattern|
      invariant |letters| == WORD_LENGTH
      invariant forall k :: 0 <= k < WORD_LENGTH ==>
        letters[k] == (if k < j then AllowedAt(pattern, guess, alphabet, k) else alphabet)
      invariant forall c :: Get(atLeast, c) == Marked(pattern, guess, c, j)
      invariant forall c :: c in greys <==> GreyBefore(pattern, guess, c, j)
      invariant !ConflictBefore(pattern, guess, j)
    {
      ConflictStep(pattern, guess, j);
      GreyStep(pattern, guess, j);
      if pattern[j] == GREY {
        letters := letters[j := letters[j] - {guess[j]}];
        greys := greys + [guess[j]];
      } else if pattern[j] == YELLOW {
        if guess[j] in greys {
          ConflictMonotone(pattern, guess, j + 1, |pattern|);
          return true, letters, atLeast, greys;
        }
        letters := letters[j := letters[j] - {guess[j]}];
        atLeast := atLeast[guess[j] := Get(atLeast, guess[j]) + 1];
      } else if pattern[j] == GREEN {
        letters := letters[j := {guess[j]}];
        atLeast := atLeast[guess[j] := Get(atLeast, guess[j]) + 1];
      }
    }
    conflict := false;
  }

  /** The exactly table: every grey letter that was also marked keeps its marked count. */
  method ExactCounts(greys: seq<char>, atLeast: map<char, nat>) returns (exactly: map<char, nat>)
    ensures forall c :: Get(exactly, c) == (if c in greys && Get(atLeast, c) > 0 then Get(atLeast, c) else 0)
    ensures forall c :: c in exactly ==> exactly[c] > 0
  {
    exactly := map[];
    for i := 0 to |greys|
      invariant forall c :: Get(exactly, c) == (if c in greys[..i] && Get(atLeast, c) > 0 then Get(atLeast, c) else 0)
      invariant forall c :: c in exactly ==> exactly[c] > 0
    {
      var letter := greys[i];
      if Get(atLeast, letter) > 0 {
        exactly := exactly[letter := Get(atLeast, letter)];
      }
      assert greys[..i + 1] == greys[..i] + [letter];
    }
    assert greys[..|greys|] == greys;
  }

  /** Extending the scan by position j adds a conflict exactly when j is a yellow
      whose letter is already grey. */
  lemma ConflictStep(pattern: string, guess: string, j: nat)
    requires j < |pattern| <= |guess|
    ensures ConflictBefore(pattern, guess, j + 1) <==>
      ConflictBefore(pattern, guess, j) || (pattern[j] == YELLOW && GreyBefore(pattern, guess, guess[j], j))
  {
    if ConflictBefore(pattern, guess, j + 1) && !ConflictBefore(pattern, guess, j) {
      var i, k :| 0 <= i < k < j + 1 && pattern[i] == GREY && pattern[k] == YELLOW && guess[i] == guess[k];
      assert k == j;
    }
    if pattern[j] == YELLOW && GreyBefore(pattern, guess, guess[j], j) {
      var i :| 0 <= i < j && pattern[i] == GREY && guess[i] == guess[j];
      assert pattern[i] == GREY && pattern[j] == YELLOW && guess[i] == guess[j];
    }
  }

  /** A conflict found in a prefix stays a conflict for any longer prefix. */
  lemma ConflictMonotone(pattern: string, guess: string, n: nat, m: nat)
    requires n <= m <= |pattern| <= |guess|
    requires ConflictBefore(pattern, guess, n)
    ensures ConflictBefore(pattern, guess, m)
  {
    var i, j :| 0 <= i < j < n && pattern[i] == GREY && pattern[j] == YELLOW && guess[i] == guess[j];
    assert 0 <= i < j < m;
  }

  /** Extending the scan by position j adds its letter to the greys exactly when j is grey. */
  lemma GreyStep(pattern: string, guess: string, j: nat)
    requires j < |pattern| <= |guess|
    ensures forall c :: GreyBefore(pattern, guess, c, j + 1) <==>
      GreyBefore(pattern, guess, c, j) || (pattern[j] == GREY && guess[j] == c)
  {
    forall c ensures GreyBefore(pattern, guess, c, j + 1) <==>
      GreyBefore(pattern, guess, c, j) || (pattern[j] == GREY && guess[j] == c)
    {
      if GreyBefore(pattern, guess, c, j + 1) && !GreyBefore(pattern, guess, c, j) {
        var i :| 0 <= i < j + 1 && pattern[i] == GREY && guess[i] == c;
        assert i == j;
      }
      if GreyBefore(pattern, guess, c, j) {
        var i :| 0 <= i < j && pattern[i] == GREY && guess[i] == c;
        assert 0 <= i < j + 1;
      }
      if pattern[j] == GREY && guess[j] == c {
        assert 0 <= j < j + 1;
      }
    }
  }

  /** The three filters built from the tables keep exactly the words the observation admits. */
  lemma FiltersMatchAdmits(pattern: string, guess: string, alphabet: set<char>, letters: seq<set<char>>,
                           atLeastFilters: set<(char, nat)>, exactlyFilters: set<(char, nat)>, w: string)
    requires |pattern| <= WORD_LENGTH && |pattern| <= |guess|
    requires |letters| == WORD_LENGTH
    requires forall k, x :: 0 <= k < WORD_LENGTH ==>
      (x in letters[k] <==> x in AllowedAt(pattern, guess, alphabet, k) && !GreyOnly(pattern, guess, x))
    requires forall f :: f in atLeastFilters <==> f.1 > 0 && f.1 == Marked(pattern, guess, f.0, |pattern|)
    requires forall f :: f in exactlyFilters <==>
      f.1 > 0 && f.1 == Marked(pattern, guess, f.0, |pattern|) && GreyBefore(pattern, guess, f.0, |pattern|)
    ensures RegexMatch(letters, w) && AtLeastFilter(w, atLeastFilters) && ExactlyFilter(w, exactlyFilters)
            <==> Admits(pattern, guess, alphabet, w)
  {
    var n := |pattern|;
    if RegexMatch(letters, w) && AtLeastFilter(w, atLeastFilters) && ExactlyFilter(w, exactlyFilters) {
      forall k | 0 <= k < WORD_LENGTH
        ensures w[k] in AllowedAt(pattern, guess, alphabet, k) && !GreyOnly(pattern, guess, w[k])
      {
        var x := w[k];
        assert x in letters[k];
        assert x in AllowedAt(pattern, guess, alphabet, k) && !GreyOnly(pattern, guess, x);
      }
      forall c ensures Marked(pattern, guess, c, n) <= Count(w, c) {
        if Marked(pattern, guess, c, n) > 0 {
          assert (c, Marked(pattern, guess, c, n)) in atLeastFilters;
        }
      }
      forall c | GreyBefore(pattern, guess, c, n) && Marked(pattern, guess, c, n) > 0
        ensures Count(w, c) == Marked(pattern, guess, c, n)
      {
        assert (c, Marked(pattern, guess, c, n)) in exactlyFilters;
      }
    }
    if Admits(pattern, guess, alphabet, w) {
      forall k | 0 <= k < WORD_LENGTH ensures w[k] in letters[k] {
        assert w[k] in AllowedAt(pattern, guess, alphabet, k);
      }
    }
  }

  /** A word of five letters that passes the filters holds no grey-only letter at all. */
  lemma GreyOnlyAbsent(pattern: string, guess: string, alphabet: set<char>, w: string, c: char)
    requires |pattern| <= WORD_LENGTH && |pattern| <= |guess|
    requires |w| == WORD_LENGTH && Admits(pattern, guess, alphabet, w)
    requires GreyOnly(pattern, guess, c)
    ensures Count(w, c) == 0
  {
    CountPositive(w, c);
  }

  /** A genuine pattern never has a yellow after a grey of the same letter,
      so the early return never fires on one. */
  lemma GenuineNoConflict(guess: string, solution: string)
    requires |guess| <= |solution|
    ensures !Conflict(Pattern(guess, solution), guess)
  {
    var p := Pattern(guess, solution);
    if Conflict(p, guess) {
      var i, j :| 0 <= i < j < |p| && p[i] == GREY && p[j] == YELLOW && guess[i] == guess[j];
      NoYellowAfterGrey(guess, solution, i, j);
    }
  }

  /** Soundness: filtering by the pattern a guess earns against the solution keeps
      the solution, when it is a word of the alphabet in the pool. */
  lemma SolutionSurvives(pool: seq<string>, guess: string, solution: string, alphabet: set<char>)
    requires |guess| <= WORD_LENGTH <= |solution|
    requires forall k :: 0 <= k < WORD_LENGTH ==> solution[k] in alphabet
    requires solution in pool
    ensures solution in FilterPool(pool, Pattern(guess, solution), guess, alphabet)
  {
    var p := Pattern(guess, solution);
    GenuineNoConflict(guess, solution);
    PatternShape(guess, solution);
    forall k | 0 <= k < WORD_LENGTH ensures !GreyOnly(p, guess, solution[k]) {
      var c := solution[k];
      if GreyBefore(p, guess, c, |p|) {
        var i :| 0 <= i < |p| && p[i] == GREY && guess[i] == c;
        GreyMeansExact(guess, solution, i);
        CountPositive(solution, c);
      }
    }
    forall c ensures Marked(p, guess, c, |p|) <= Count(solution, c) {
      MarkedIsMin(guess, solution, c);
    }
    forall c | GreyBefore(p, guess, c, |p|) ensures Count(solution, c) == Marked(p, guess, c, |p|) {
      var i :| 0 <= i < |p| && p[i] == GREY && guess[i] == c;
      GreyMeansExact(guess, solution, i);
    }
    assert Admits(p, guess, alphabet, solution);
  }

  /** Filtering a second time by the same observation changes nothing. */
  lemma FilterPoolIdempotent(pool: seq<string>, pattern: string, guess: string, alphabet: set<char>)
    requires |pattern| <= WORD_LENGTH && |pattern| <= |guess|
    ensures FilterPool(FilterPool(pool, pattern, guess, alphabet), pattern, guess, alphabet)
            == FilterPool(pool, pattern, guess, alphabet)
  {
    if !Conflict(pattern, guess) {
      FilterIdempotent(pool, w => Admits(pattern, guess, alphabet, w));
    }
  }

  /** The new pool is the old one with words deleted and the order kept, so it never grows. */
  lemma FilterPoolShrinks(pool: seq<string>, pattern: string, guess: string, alphabet: set<char>)
    requires |pattern| <= WORD_LENGTH && |pattern| <= |guess|
    ensures IsSubsequence(FilterPool(pool, pattern, guess, alphabet), pool)
    ensures |FilterPool(pool, pattern, guess, alphabet)| <= |pool|
  {
    if Conflict(pattern, guess) {
      SubsequenceReflexive(pool);
    } else {
      FilterIsSubsequence(pool, w => Admits(pattern, guess, alphabet, w));
    }
    SubsequenceLength(FilterPool(pool, pattern, guess, alphabet), pool);
  }

  /** The source's three successive filters (the per-position classes, then the at-least
      table, then the exactly table) give the filtered pool of the observation. */
  lemma ThreeFilters(pool: seq<string>, pattern: string, guess: string, alphabet: set<char>,
                     letters: seq<set<char>>, atLeastFilters: set<(char, nat)>, exactlyFilters: set<(char, nat)>,
                     regex: string -> bool, atLeast: string -> bool, exactly: string -> bool)
    requires |pattern| <= WORD_LENGTH && |pattern| <= |guess| && !Conflict(pattern, guess)
    requires |letters| == WORD_LENGTH
    requires forall k, x :: 0 <= k < WORD_LENGTH ==>
      (x in letters[k] <==> x in AllowedAt(pattern, guess, alphabet, k) && !GreyOnly(pattern, guess, x))
    requires forall f :: f in atLeastFilters <==> f.1 > 0 && f.1 == Marked(pattern, guess, f.0, |pattern|)
    requires forall f :: f in exactlyFilters <==>
      f.1 > 0 && f.1 == Marked(pattern, guess, f.0, |pattern|) && GreyBefore(pattern, guess, f.0, |pattern|)
    requires forall w :: regex(w) == RegexMatch(letters, w)
    requires forall w :: atLeast(w) == AtLeastFilter(w, atLeastFilters)
    requires forall w :: exactly(w) == ExactlyFilter(w, exactlyFilters)
    ensures Filter(Filter(Filter(pool, regex), atLeast), exactly) == FilterPool(pool, pattern, guess, alphabet)
  {
    var both := w => regex(w) && atLeast(w);
    var all := w => both(w) && exactly(w);
    var admits := w => Admits(pattern, guess, alphabet, w);
    FilterCompose(pool, regex, atLeast, both);
    FilterCompose(pool, both, exactly, all);
    forall w ensures all(w) == admits(w) {
      FiltersMatchAdmits(pattern, guess, alphabet, letters, atLeastFilters, exactlyFilters, w);
    }
    FilterCongruent(pool, all, admits);
  }
}
