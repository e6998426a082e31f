/** `calculateCharacterValue`: the numeric score of a word. Case folding is
    ASCII only; `Character.toLowerCase` on other characters is not modelled. */
module CharacterValue {

  predicate IsUpper(c: char) {
    'A' <= c <= 'Z'
  }

  predicate IsLetter(c: char) {
    'a' <= c <= 'z' || IsUpper(c)
  }

  /** ASCII lower-casing; every other character is left as it is. */
  function ToLower(c: char): char {
    if IsUpper(c) then (c as int + ('a' as int - 'A' as int)) as char else c
  }

  /** The lower-cased word, character by character. */
  function LowerWord(w: string): string {
    if |w| == 0 then [] else [ToLower(w[0])] + LowerWord(w[1..])
  }

  /** One character's contribution, `toLowerCase(c) - 'a' + 1`: a letter
      contributes its 1-based position in the alphabet whatever its case;
      any other character contributes its code minus 96, which may be zero
      or negative. */
  function CharValue(c: char): (v: int)
    ensures 'a' <= c <= 'z' ==> 1 <= v <= 26 && v == c as int - 'a' as int + 1
    ensures IsUpper(c) ==> 1 <= v <= 26 && v == c as int - 'A' as int + 1
    ensures !IsLetter(c) ==> v == c as int - 96
  {
    ToLower(c) as int - 'a' as int + 1
  }

  /** The sum of the character values of `w`. A word made of letters only
      scores between one and twenty-six per letter. */
  function Score(w: string): (v: int)
    ensures (forall i :: 0 <= i < |w| ==> IsLetter(w[i])) ==> |w| <= v <= 26 * |w|
  {
    if |w| == 0 then 0
    else
      assert forall i :: 0 <= i < |w[1..]| ==> w[1..][i] == w[i + 1];
      CharValue(w[0]) + Score(w[1..])
  }

  /** The score of a concatenation is the sum of the scores of its parts. */
  lemma {:induction false} ScoreOfConcat(a: string, b: string)
    ensures Score(a + b) == Score(a) + Score(b)
  {
    if |a| > 0 {
      assert (a + b)[0] == a[0];
      assert (a + b)[1..] == a[1..] + b;
      ScoreOfConcat(a[1..], b);
    } else {
      assert a + b == b;
    }
  }

  /** Scoring folds case first, so a word and its lower-case form score alike. */
  lemma {:induction false} ScoreIgnoresCase(w: string)
    ensures Score(LowerWord(w)) == Score(w)
  {
    if |w| > 0 {
      var lw := LowerWord(w);
      assert lw[0] == ToLower(w[0]) && lw[1..] == LowerWord(w[1..]);
      assert CharValue(ToLower(w[0])) == CharValue(w[0]);
      ScoreIgnoresCase(w[1..]);
    }
  }

  /** Worked values: the empty word, a lower-case word and its mixed-case
      spelling. */
  lemma ScoreExamples()
    ensures Score("") == 0
    ensures Score("abc") == 1 + 2 + 3
    ensures Score("AbC") == Score("abc")
    ensures Score("ab") == 3 && Score("dc") == 7 && Score("e") == 5
  {
    assert "abc"[1..] == "bc" && "bc"[1..] == "c";
    assert "AbC"[1..] == "bC" && "bC"[1..] == "C";
    assert "ab"[1..] == "b" && "dc"[1..] == "c";
  }
}
