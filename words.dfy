/** The word validator: `/^[a-zA-ZåäöÅÄÖ]{2,}$/.test(word)`. */
module Words {

  /** One character of the class `[a-zA-ZåäöÅÄÖ]`: the ASCII letters and the six
      Finnish/Swedish letters with diacritics. */
  predicate IsWordChar(c: char) {
    ('a' <= c <= 'z') || ('A' <= c <= 'Z') ||
    c == 'å' || c == 'ä' || c == 'ö' || c == 'Å' || c == 'Ä' || c == 'Ö'
  }

  /** The anchored pattern run as its three-state automaton: `seen` is the number of
      letters read so far, capped at 2. Any other character rejects; the end of the
      input accepts after at least two letters. */
  function Accepts(w: string, seen: nat): (accepted: bool)
    requires seen <= 2
    ensures accepted <==> seen + |w| >= 2 && forall i :: 0 <= i < |w| ==> IsWordChar(w[i])
    decreases |w|
  {
    if w == [] then seen == 2
    else if !IsWordChar(w[0]) then false
    else
      var rest := Accepts(w[1..], if seen == 2 then 2 else seen + 1);
      assert forall i :: 1 <= i < |w| ==> w[i] == w[1..][i - 1];
      rest
  }

  /** A valid word is at least two characters long and consists of letters of the
      class alone: no digits, spaces, punctuation or line breaks anywhere. */
  function IsValidWord(w: string): (valid: bool)
    ensures valid <==> |w| >= 2 && forall i :: 0 <= i < |w| ==> IsWordChar(w[i])
  {
    Accepts(w, 0)
  }

  /** A valid word holds none of the characters the store uses as separators. */
  lemma ValidWordSeparatorFree(w: string)
    requires IsValidWord(w)
    ensures ' ' !in w && '\n' !in w && '\r' !in w && w != ""
  {
  }

  /** The examples the validator is meant to decide. */
  lemma ValidWordExamples()
    ensures IsValidWord("ab") && IsValidWord("äö") && IsValidWord("koira")
    ensures !IsValidWord("") && !IsValidWord("a") && !IsValidWord("ab3") && !IsValidWord("a b")
  {
    assert !IsWordChar("ab3"[2]);
    assert !IsWordChar("a b"[1]);
  }
}
