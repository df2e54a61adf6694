/** Hebrew last-letter normalisation: five letters take a distinct final form
    ("sofit") at the end of a word. */
module Hebrew {

  /** Each final form and its regular letter. */
  const FINAL_TO_REGULAR: map<char, char> := map['ך' := 'כ', 'ם' := 'מ', 'ן' := 'נ', 'ף' := 'פ', 'ץ' := 'צ']
  /** Each regular letter and its final form. */
  const REGULAR_TO_FINAL: map<char, char> := map['כ' := 'ך', 'מ' := 'ם', 'נ' := 'ן', 'פ' := 'ף', 'צ' := 'ץ']

  /** The two tables undo each other, and no letter is both regular and final. */
  lemma TablesInverse()
    ensures forall c :: c in REGULAR_TO_FINAL ==>
      REGULAR_TO_FINAL[c] in FINAL_TO_REGULAR && FINAL_TO_REGULAR[REGULAR_TO_FINAL[c]] == c
    ensures forall c :: c in FINAL_TO_REGULAR ==>
      FINAL_TO_REGULAR[c] in REGULAR_TO_FINAL && REGULAR_TO_FINAL[FINAL_TO_REGULAR[c]] == c
    ensures forall c :: c in REGULAR_TO_FINAL ==> c !in FINAL_TO_REGULAR
  {
  }

  /** Swaps the last letter of a word between its regular and final form; a last
      letter without a final form is left alone. */
  function ProcessHebrewWord(word: string): (r: string)
    requires |word| > 0
    ensures |r| == |word| && r[..|r| - 1] == word[..|word| - 1]
    ensures word[|word| - 1] in REGULAR_TO_FINAL ==> r[|r| - 1] == REGULAR_TO_FINAL[word[|word| - 1]]
    ensures word[|word| - 1] in FINAL_TO_REGULAR ==> r[|r| - 1] == FINAL_TO_REGULAR[word[|word| - 1]]
    ensures word[|word| - 1] !in REGULAR_TO_FINAL && word[|word| - 1] !in FINAL_TO_REGULAR ==> r == word
  {
    var last := word[|word| - 1];
    if last in REGULAR_TO_FINAL then word[..|word| - 1] + [REGULAR_TO_FINAL[last]]
    else if last in FINAL_TO_REGULAR then word[..|word| - 1] + [FINAL_TO_REGULAR[last]]
    else word
  }

  /** Normalising twice gives back the original word. */
  lemma ProcessTwice(word: string)
    requires |word| > 0
    ensures ProcessHebrewWord(ProcessHebrewWord(word)) == word
  {
    TablesInverse();
    var once := ProcessHebrewWord(word);
    var twice := ProcessHebrewWord(once);
    assert twice[..|twice| - 1] == word[..|word| - 1];
    assert twice == twice[..|twice| - 1] + [twice[|twice| - 1]];
    assert word == word[..|word| - 1] + [word[|word| - 1]];
  }
}
