/** The `plurality` helper used to word log messages. */
module StringUtil {

  /** `word.endsWith('s')`. */
  predicate EndsWithS(word: string) {
    |word| > 0 && word[|word| - 1] == 's'
  }

  /**
   * The word as it reads next to `amount`: unchanged for exactly one; otherwise
   * with an apostrophe after a final "s", or with an "s" appended.
   */
  function Plurality(word: string, amount: int): (r: string)
    ensures amount == 1 ==> r == word
    ensures amount != 1 ==> |r| == |word| + 1 && r[..|word|] == word
    ensures amount != 1 ==> (r[|word|] == '\'' <==> EndsWithS(word))
  {
    if amount == 1 then word
    else if EndsWithS(word) then word + "'"
    else word + "s"
  }

  /**
   * Any amount other than one yields a word that reads as plural: it ends in
   * "s", or in "s" followed by the apostrophe.
   */
  lemma PluralEndsInS(word: string, amount: int)
    requires amount != 1
    ensures var r := Plurality(word, amount);
            EndsWithS(r) || (r[|r| - 1] == '\'' && EndsWithS(r[..|r| - 1]))
  {
    var r := Plurality(word, amount);
    if EndsWithS(word) {
      assert r[..|r| - 1] == word;
    }
  }
}
