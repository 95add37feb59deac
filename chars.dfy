/**
 * Character classes used by the segmenter and its tools, as named predicates.
 * Ranges are Unicode scalar values; Dafny's `char` is a Unicode scalar value.
 */
module Chars {

  /** Python's `\s` (and `str.isspace`, `str.split()`, `str.strip()`) on `str`. */
  predicate IsWs(c: char)
  {
    ('\t' <= c <= '\r') || ('\U{1C}' <= c <= '\U{1F}') || c == ' ' || c == '\U{85}' || c == '\U{A0}'
    || c == '\U{1680}' || ('\U{2000}' <= c <= '\U{200A}') || c == '\U{2028}' || c == '\U{2029}'
    || c == '\U{202F}' || c == '\U{205F}' || c == '\U{3000}'
  }

  /** Myanmar base consonants KA .. A, the class `[က-အ]` of the syllable breaker. */
  predicate IsConsonant(c: char)
  {
    '\U{1000}' <= c <= '\U{1021}'
  }

  const LittleSection: char := '\U{104A}'  // ၊
  const Section: char := '\U{104B}'        // ။
  const Virama: char := '\U{1039}'         // ္ subscript-consonant sign
  const Asat: char := '\U{103A}'           // ် vowel killer ("a-that")

  /** Sentence punctuation ၊ and ။. */
  predicate IsSectionMark(c: char)
  {
    c == LittleSection || c == Section
  }

  /** MYANMAR_LETTER of the space remover: U+1000..U+109F and Myanmar Extended-A U+AA60..U+AA7F. */
  predicate IsMyanmarLetter(c: char)
  {
    ('\U{1000}' <= c <= '\U{109F}') || ('\U{AA60}' <= c <= '\U{AA7F}')
  }

  /** MYANMAR_DIGIT: U+1040..U+1049. */
  predicate IsMyanmarDigit(c: char)
  {
    '\U{1040}' <= c <= '\U{1049}'
  }

  /** The class `[က-႟]` wrapped by the TeX tool (no Extended-A block). */
  predicate IsMyanmarBlock(c: char)
  {
    '\U{1000}' <= c <= '\U{109F}'
  }

  /** The sentinel ☃ (U+2603) the digit-protection mode writes in place of a gap. */
  const Snowman: char := '\U{2603}'

  lemma DigitIsLetter(c: char)
    ensures IsMyanmarDigit(c) ==> IsMyanmarLetter(c) && IsMyanmarBlock(c)
  {
  }

  lemma LetterIsNotWs(c: char)
    ensures IsMyanmarLetter(c) ==> !IsWs(c)
    ensures IsSectionMark(c) ==> IsMyanmarBlock(c) && !IsWs(c)
    ensures !IsWs(Snowman) && !IsMyanmarLetter(Snowman)
  {
  }
}
