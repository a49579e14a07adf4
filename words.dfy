/**
 * Normalisation of the input words: upper-casing (`String::toUpperCase`)
 * and the alphabet filter `isAlphabetical`.
 */
module Words {
  import opened Tables

  predicate IsLowerAscii(c: char) { 'a' <= c <= 'z' }

  /** Upper-casing of one character; only the ASCII letters a..z change. */
  function UpperChar(c: char): (u: char)
    ensures IsLowerAscii(c) ==> IsLetter(u) && u as int + 32 == c as int
    ensures !IsLowerAscii(c) ==> u == c
  {
    if IsLowerAscii(c) then (c as int - 32) as char else c
  }

  /** `String::toUpperCase`, character by character. */
  function UpperCase(w: string): (u: string)
    ensures |u| == |w|
    ensures forall i :: 0 <= i < |w| ==> u[i] == UpperChar(w[i])
  {
    if w == [] then [] else [UpperChar(w[0])] + UpperCase(w[1..])
  }

  /** Upper-casing twice changes nothing more. */
  lemma UpperCaseIdempotent(w: string)
    ensures UpperCase(UpperCase(w)) == UpperCase(w)
  {
    var u := UpperCase(w);
    assert forall i :: 0 <= i < |u| ==> UpperChar(u[i]) == u[i];
  }

  /**
   * Whether the pattern `.*[^A-Z].*` finds a match: it does exactly when some
   * character lies outside A..Z (both `.*` may match the empty string).
   */
  function FindsNonLetter(w: string): (r: bool)
    ensures r <==> exists i :: 0 <= i < |w| && !IsLetter(w[i])
  {
    if w == [] then false
    else
      assert forall i :: 1 <= i < |w| ==> w[i] == w[1..][i - 1];
      !IsLetter(w[0]) || FindsNonLetter(w[1..])
  }

  /** `isAlphabetical`: every character is in A..Z (vacuously so for the empty word). */
  function IsAlphabetical(w: string): (r: bool)
    ensures r <==> AllLetters(w)
  {
    !FindsNonLetter(w)
  }

  /** A raw word passes the alphabet filter after upper-casing iff it is made of ASCII letters of either case. */
  lemma UpperCaseAlphabetical(w: string)
    ensures IsAlphabetical(UpperCase(w)) <==> forall i :: 0 <= i < |w| ==> IsLetter(w[i]) || IsLowerAscii(w[i])
  {
  }
}
