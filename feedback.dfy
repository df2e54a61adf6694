/** Feedback generation: the pattern a guess earns against a solution, with the
    two-pass duplicate-letter rule (greens first, then yellows left to right). */
module Feedback {
  import opened Words

  /** Number of positions k < n where guess and solution both hold c. */
  function Greens(guess: string, solution: string, c: char, n: nat): nat
    requires n <= |guess| <= |solution|
  {
    if n == 0 then 0
    else Greens(guess, solution, c, n - 1) + (if guess[n - 1] == c && solution[n - 1] == c then 1 else 0)
  }

  /** Number of positions k < n where the guess holds c but the solution does not. */
  function Misses(guess: string, solution: string, c: char, n: nat): nat
    requires n <= |guess| <= |solution|
  {
    if n == 0 then 0
    else Misses(guess, solution, c, n - 1) + (if guess[n - 1] == c && solution[n - 1] != c then 1 else 0)
  }

  /** How many copies of c in the solution are left for yellows once every green has taken its own. */
  function Leftover(guess: string, solution: string, c: char): int
    requires |guess| <= |solution|
  {
    Count(solution, c) - Greens(guess, solution, c, |guess|)
  }

  /** The mark of position i: green on a match; otherwise yellow while fewer
      non-green copies of the letter stand to its left than the solution has left over. */
  function MarkAt(guess: string, solution: string, i: nat): char
    requires i < |guess| <= |solution|
  {
    if guess[i] == solution[i] then GREEN
    else if Misses(guess, solution, guess[i], i) < Leftover(guess, solution, guess[i]) then YELLOW
    else GREY
  }

  /** The feedback pattern of a guess against a solution, position by position. */
  function Pattern(guess: string, solution: string): (p: string)
    requires |guess| <= |solution|
  {
    seq(|guess|, i requires 0 <= i < |guess| => MarkAt(guess, solution, i))
  }

  /** The source's scoring function: a count table of the solution, a pass marking
      greens, and a pass marking yellows left to right while copies remain. */
  method GetPattern(guess: string, solution: string) returns (pattern: string)
    requires |guess| <= |solution|
    ensures pattern == Pattern(guess, solution)
  {
    var letterCounts := CountLetters(solution);
    var greens;
    greens, letterCounts := MarkGreens(guess, solution, letterCounts);
    ghost var afterGreens := letterCounts;
    pattern, letterCounts := MarkYellows(guess, solution, greens, letterCounts);
    forall j | 0 <= j < |guess| ensures pattern[j] == Pattern(guess, solution)[j] {
      assert Get(afterGreens, guess[j]) == Leftover(guess, solution, guess[j]);
    }
  }

  /** The count table of the solution: one key per letter it holds, with its number of copies. */
  method CountLetters(solution: string) returns (letterCounts: map<char, int>)
    ensures forall c :: Get(letterCounts, c) == Count(solution, c)
    ensures forall c :: c in letterCounts <==> c in solution
  {
    letterCounts := map[];
    for k := 0 to |solution|
      invariant forall c :: Get(letterCounts, c) == Count(solution[..k], c)
      invariant forall c :: c in letterCounts <==> c in solution[..k]
    {
      var letter := solution[k];
      if letter in letterCounts {
        letterCounts := letterCounts[letter := letterCounts[letter] + 1];
      } else {
        letterCounts := letterCounts[letter := 1];
      }
      assert solution[..k + 1] == solution[..k] + [letter];
    }
    assert solution[..|solution|] == solution;
  }

  /** The first pass: every position where guess and solution agree turns green and
      takes one copy of its letter from the count table, which never goes negative. */
  method MarkGreens(guess: string, solution: string, counts: map<char, int>)
    returns (marks: string, letterCounts: map<char, int>)
    requires |guess| <= |solution|
    requires forall c :: Get(counts, c) == Count(solution, c)
    requires forall c :: c in counts <==> c in solution
    ensures |marks| == |guess|
    ensures forall j :: 0 <= j < |guess| ==> marks[j] == (if guess[j] == solution[j] then GREEN else GREY)
    ensures forall c :: Get(letterCounts, c) == Leftover(guess, solution, c) && Get(letterCounts, c) >= 0
  {
    marks := seq(|guess|, _ => GREY);
    letterCounts := counts;
    for i := 0 to |guess|
      invariant GreensUpTo(guess, solution, marks, letterCounts, i)
    {
      marks, letterCounts := MarkGreenAt(guess, solution, marks, letterCounts, i);
    }
  }

  /** The state of the first pass after its first n positions: the agreeing ones among
      them green, everything else grey, and each letter's count reduced by its greens so
      far, never below zero, with a key for exactly the letters of the solution. */
  predicate GreensUpTo(guess: string, solution: string, marks: string, letterCounts: map<char, int>, n: nat)
    requires n <= |guess| <= |solution|
  {
    && |marks| == |guess|
    && (forall j :: 0 <= j < |guess| ==> marks[j] == (if j < n && guess[j] == solution[j] then GREEN else GREY))
    && (forall c :: Get(letterCounts, c) == Count(solution, c) - Greens(guess, solution, c, n))
    && (forall c :: Get(letterCounts, c) >= 0)
    && (forall c :: c in letterCounts <==> c in solution)
  }

  /** One step of the first pass, at position i. */
  method MarkGreenAt(guess: string, solution: string, marks: string, letterCounts: map<char, int>, i: nat)
    returns (marks': string, letterCounts': map<char, int>)
    requires i < |guess| <= |solution|
    requires GreensUpTo(guess, solution, marks, letterCounts, i)
    ensures GreensUpTo(guess, solution, marks', letterCounts', i + 1)
  {
    marks', letterCounts' := marks, letterCounts;
    if guess[i] == solution[i] {
      marks' := marks'[i := GREEN];
      GreensBound(guess, solution, guess[i], i + 1);
      letterCounts' := letterCounts'[guess[i] := letterCounts'[guess[i]] - 1];
    }
    forall c | c != guess[i] || guess[i] != solution[i]
      ensures Get(letterCounts', c) == Count(solution, c) - Greens(guess, solution, c, i + 1)
    {
      assert Get(letterCounts', c) == Get(letterCounts, c);
      assert Greens(guess, solution, c, i + 1) == Greens(guess, solution, c, i);
    }
  }

  /** What is left of a copies once m misses have each taken one, never going below zero. */
  function Remaining(a: int, m: nat): int
  {
    if m < a then a - m else 0
  }

  /** The second pass: each non-green position turns yellow while copies of its letter
      remain in the count table, each yellow using one up. A position is yellow exactly
      when fewer non-green copies of its letter stand to its left than the table held. */
  method MarkYellows(guess: string, solution: string, greens: string, counts: map<char, int>)
    returns (marks: string, letterCounts: map<char, int>)
    requires |guess| <= |solution| && |greens| == |guess|
    requires forall j :: 0 <= j < |guess| ==> greens[j] == (if guess[j] == solution[j] then GREEN else GREY)
    requires forall c :: Get(counts, c) >= 0
    ensures |marks| == |guess|
    ensures forall j :: 0 <= j < |guess| ==>
      marks[j] == (if greens[j] == GREY && Misses(guess, solution, guess[j], j) < Get(counts, guess[j]) then YELLOW else greens[j])
    ensures forall c :: Get(letterCounts, c) >= 0
  {
    marks, letterCounts := greens, counts;
    for i := 0 to |guess|
      invariant YellowsUpTo(guess, solution, greens, counts, marks, letterCounts, i)
    {
      marks, letterCounts := MarkYellowAt(guess, solution, greens, counts, marks, letterCounts, i);
    }
  }

  /** The state of the second pass after its first n positions: those of them that are
      yellow, the rest still as the first pass left them, and each letter's count reduced
      by its misses so far, down to zero at the lowest. */
  predicate YellowsUpTo(guess: string, solution: string, greens: string, counts: map<char, int>,
                        marks: string, letterCounts: map<char, int>, n: nat)
    requires n <= |guess| <= |solution| && |greens| == |guess|
  {
    && |marks| == |guess|
    && (forall j :: 0 <= j < |guess| ==>
          marks[j] == (if j < n && greens[j] == GREY && Misses(guess, solution, guess[j], j) < Get(counts, guess[j])
                       then YELLOW else greens[j]))
    && (forall c :: Get(letterCounts, c) == Remaining(Get(counts, c), Misses(guess, solution, c, n)))
  }

  /** One step of the second pass, at position i. */
  method MarkYellowAt(guess: string, solution: string, greens: string, counts: map<char, int>,
                      marks: string, letterCounts: map<char, int>, i: nat)
    returns (marks': string, letterCounts': map<char, int>)
    requires i < |guess| <= |solution| && |greens| == |guess|
    requires forall j :: 0 <= j < |guess| ==> greens[j] == (if guess[j] == solution[j] then GREEN else GREY)
    requires YellowsUpTo(guess, solution, greens, counts, marks, letterCounts, i)
    ensures YellowsUpTo(guess, solution, greens, counts, marks', letterCounts', i + 1)
  {
    marks', letterCounts' := marks, letterCounts;
    if guess[i] in letterCounts' {
      if letterCounts'[guess[i]] > 0 && marks'[i] == GREY {
        marks' := marks'[i := YELLOW];
        letterCounts' := letterCounts'[guess[i] := letterCounts'[guess[i]] - 1];
      }
    }
    forall j | 0 <= j < |guess| ensures marks'[j] ==
      (if j < i + 1 && greens[j] == GREY && Misses(guess, solution, guess[j], j) < Get(counts, guess[j]) then YELLOW else greens[j])
    {
      if j == i {
        assert Get(letterCounts, guess[i]) > 0 <==> Misses(guess, solution, guess[i], i) < Get(counts, guess[i]);
      } else {
        assert marks'[j] == marks[j];
      }
    }
    forall c ensures Get(letterCounts', c) == Remaining(Get(counts, c), Misses(guess, solution, c, i + 1)) {
      if c != guess[i] || guess[i] == solution[i] {
        assert Misses(guess, solution, c, i + 1) == Misses(guess, solution, c, i);
      }
    }
  }

  /** Greens never outnumber the copies of the letter in the solution,
      so the count table never goes negative. */
  lemma {:induction false} GreensBound(guess: string, solution: string, c: char, n: nat)
    requires n <= |guess| <= |solution|
    ensures Greens(guess, solution, c, n) <= Count(solution[..n], c) <= Count(solution, c)
  {
    CountPrefix(solution, n, c);
    if n > 0 {
      GreensBound(guess, solution, c, n - 1);
      assert solution[..n][..n - 1] == solution[..n - 1];
    }
  }

  /** Every copy of c in the guess is either a green or a miss. */
  lemma {:induction false} GreensPlusMisses(guess: string, solution: string, c: char, n: nat)
    requires n <= |guess| <= |solution|
    ensures Count(guess[..n], c) == Greens(guess, solution, c, n) + Misses(guess, solution, c, n)
  {
    if n > 0 {
      GreensPlusMisses(guess, solution, c, n - 1);
      assert guess[..n][..n - 1] == guess[..n - 1];
    }
  }

  /** Misses only accumulate from left to right. */
  lemma {:induction false} MissesMonotone(guess: string, solution: string, c: char, i: nat, j: nat)
    requires i <= j <= |guess| <= |solution|
    ensures Misses(guess, solution, c, i) <= Misses(guess, solution, c, j)
    decreases j - i
  {
    if i < j {
      MissesMonotone(guess, solution, c, i, j - 1);
    }
  }

  /** Every mark is one of the three symbols, the pattern is as long as the guess,
      and a position is green exactly when guess and solution agree there. */
  lemma PatternShape(guess: string, solution: string)
    requires |guess| <= |solution|
    ensures |Pattern(guess, solution)| == |guess|
    ensures forall i :: 0 <= i < |guess| ==>
      var m := Pattern(guess, solution)[i];
      (m == GREEN || m == YELLOW || m == GREY) && (m == GREEN <==> guess[i] == solution[i])
  {
  }

  /** The pattern is all green exactly when the guess spells the start of the solution;
      for words of equal length, exactly when the guess is the solution. */
  lemma AllGreenIffSolved(guess: string, solution: string)
    requires |guess| <= |solution|
    ensures Pattern(guess, solution) == AllGreen(|guess|) <==> guess == solution[..|guess|]
  {
    var p := Pattern(guess, solution);
    if p == AllGreen(|guess|) {
      forall i | 0 <= i < |guess| ensures guess[i] == solution[..|guess|][i] {
        assert p[i] == MarkAt(guess, solution, i) == GREEN;
      }
    }
    if guess == solution[..|guess|] {
      forall i | 0 <= i < |guess| ensures p[i] == AllGreen(|guess|)[i] {
        assert p[i] == MarkAt(guess, solution, i);
      }
    }
  }

  /** Prefix form of the duplicate-letter count: up to position n, the marked
      copies of c are its greens plus as many misses as the leftover allows. */
  lemma {:induction false} MarkedSplit(guess: string, solution: string, c: char, n: nat)
    requires n <= |guess| <= |solution|
    ensures Marked(Pattern(guess, solution), guess, c, n)
            == Greens(guess, solution, c, n) + Min(Misses(guess, solution, c, n), Leftover(guess, solution, c))
  {
    GreensBound(guess, solution, c, |guess|);
    if n > 0 {
      MarkedSplit(guess, solution, c, n - 1);
      var p := Pattern(guess, solution);
      var k := n - 1;
      assert p[k] == MarkAt(guess, solution, k);
      var m, l := Misses(guess, solution, c, k), Leftover(guess, solution, c);
      if guess[k] == c && solution[k] != c {
        assert Misses(guess, solution, c, n) == m + 1;
        assert p[k] == (if m < l then YELLOW else GREY);
        assert Min(m + 1, l) == Min(m, l) + (if m < l then 1 else 0);
        assert Marked(p, guess, c, n) == Marked(p, guess, c, k) + (if m < l then 1 else 0);
      } else if guess[k] == c {
        assert p[k] == GREEN;
        assert Marked(p, guess, c, n) == Marked(p, guess, c, k) + 1;
      } else {
        assert Marked(p, guess, c, n) == Marked(p, guess, c, k);
      }
    }
  }

  /** The duplicate-letter rule: for every letter, the copies marked green or yellow
      number exactly the smaller of its counts in the guess and in the solution. */
  lemma MarkedIsMin(guess: string, solution: string, c: char)
    requires |guess| <= |solution|
    ensures Marked(Pattern(guess, solution), guess, c, |guess|) == Min(Count(guess, c), Count(solution, c))
  {
    MarkedSplit(guess, solution, c, |guess|);
    GreensPlusMisses(guess, solution, c, |guess|);
    GreensBound(guess, solution, c, |guess|);
    assert guess[..|guess|] == guess;
  }

  /** Yellows go to the leftmost non-green copies: once a copy of a letter is grey,
      no later copy of that letter is yellow. */
  lemma NoYellowAfterGrey(guess: string, solution: string, i: nat, j: nat)
    requires i < j < |guess| <= |solution|
    requires guess[i] == guess[j]
    requires Pattern(guess, solution)[i] == GREY
    ensures Pattern(guess, solution)[j] != YELLOW
  {
    MissesMonotone(guess, solution, guess[i], i + 1, j);
  }

  /** A grey copy of c means the marked copies of c are all the solution has. */
  lemma GreyMeansExact(guess: string, solution: string, i: nat)
    requires i < |guess| <= |solution|
    requires Pattern(guess, solution)[i] == GREY
    ensures Marked(Pattern(guess, solution), guess, guess[i], |guess|) == Count(solution, guess[i])
  {
    var c := guess[i];
    MarkedSplit(guess, solution, c, |guess|);
    MissesMonotone(guess, solution, c, i + 1, |guess|);
  }

  /** The duplicate-letter example: "abbey" against "aabby" has greens at a, the
      second b and y, the first b is yellow (one b of the solution is left) and e is grey. */
  lemma AbbeyExample()
    ensures Pattern("abbey", "aabby") == "21202"
  {
    var g, s := "abbey", "aabby";
    assert Count(s, 'b') == 2 by {
      assert s[..4] == "aabb" && "aabb"[..3] == "aab" && "aab"[..2] == "aa";
      assert "aa"[..1] == "a" && "a"[..0] == "";
      assert Count("a", 'b') == 0 && Count("aa", 'b') == 0;
      assert Count("aab", 'b') == 1 && Count("aabb", 'b') == 2;
    }
    assert Count(s, 'e') == 0 by {
      CountPositive(s, 'e');
    }
    assert Greens(g, s, 'b', 5) == 1;
    assert MarkAt(g, s, 1) == YELLOW;
    assert MarkAt(g, s, 3) == GREY;
    var p := Pattern(g, s);
    assert p[1] == YELLOW && p[3] == GREY;
    assert p == "21202";
  }
}
