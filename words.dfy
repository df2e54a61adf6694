/** Constants of the solver and the letter-counting vocabulary shared by every part of it. */
module Words {

  /** Length of every word in a session. */
  const WORD_LENGTH: nat := 5
  /** Number of guesses a game allows. */
  const NUM_OF_TRIES: nat := 6

  /** The three feedback marks, as the characters the solver exchanges with the game. */
  const GREEN: char := '2'
  const YELLOW: char := '1'
  const GREY: char := '0'

  const HEBREW_LETTERS: string := "אבגדהוזחטיכלמנסעפצקרשת"
  const ENGLISH_LETTERS: string := "abcdefghijklmnopqrstuvwxyz"

  /** The letters a position may hold before any feedback, for the chosen language. */
  function Alphabet(hebrew: bool): set<char>
  {
    if hebrew then (set c | c in HEBREW_LETTERS) else (set c | c in ENGLISH_LETTERS)
  }

  /** The pattern of a solved game: every position green. */
  function AllGreen(n: nat): (p: string)
    ensures |p| == n && forall i :: 0 <= i < n ==> p[i] == GREEN
  {
    if n == 0 then [] else AllGreen(n - 1) + [GREEN]
  }

  /** A read of a letter table that treats a missing key as zero (a `defaultdict(int)`
      read, or a `dict` guarded by `in`). */
  function Get(m: map<char, int>, c: char): int
  {
    if c in m then m[c] else 0
  }

  /** Number of occurrences of the letter c in w (Python's `w.count(c)`). */
  function Count(w: string, c: char): nat
  {
    if |w| == 0 then 0 else Count(w[..|w| - 1], c) + (if w[|w| - 1] == c then 1 else 0)
  }

  /** A letter occurs in a word exactly when it is counted at least once,
      and never more often than the word is long. */
  lemma {:induction false} CountPositive(w: string, c: char)
    ensures Count(w, c) > 0 <==> c in w
    ensures Count(w, c) <= |w|
  {
    if |w| > 0 {
      var init := w[..|w| - 1];
      CountPositive(init, c);
      assert w == init + [w[|w| - 1]];
      assert c in w <==> c in init || w[|w| - 1] == c;
    }
  }

  /** The count of a letter is its multiplicity in the multiset of the word's letters. */
  lemma {:induction false} CountIsMultiplicity(w: string, c: char)
    ensures Count(w, c) == multiset(w)[c]
  {
    if |w| > 0 {
      var init := w[..|w| - 1];
      CountIsMultiplicity(init, c);
      assert w == init + [w[|w| - 1]];
      assert multiset(w) == multiset(init) + multiset{w[|w| - 1]};
    }
  }

  /** Counting over a prefix never exceeds counting over the whole word. */
  lemma {:induction false} CountPrefix(w: string, n: nat, c: char)
    requires n <= |w|
    ensures Count(w[..n], c) <= Count(w, c)
  {
    if n < |w| {
      var init := w[..|w| - 1];
      assert w[..n] == init[..n];
      CountPrefix(init, n, c);
    } else {
      assert w[..n] == w;
    }
  }

  /** Number of positions k < n at which the guess holds c and the pattern
      marks it green or yellow: the tally the source keeps in `at_least`. */
  function Marked(pattern: string, guess: string, c: char, n: nat): nat
    requires n <= |pattern| <= |guess|
  {
    if n == 0 then 0
    else Marked(pattern, guess, c, n - 1)
         + (if guess[n - 1] == c && (pattern[n - 1] == GREEN || pattern[n - 1] == YELLOW) then 1 else 0)
  }

  /** The smaller of two integers. */
  function Min(a: int, b: int): int
  {
    if a <= b then a else b
  }
}
