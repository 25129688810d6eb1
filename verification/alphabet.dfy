/**
 The epitope alphabet: the twenty one-letter amino-acid codes, checked
 case-insensitively by upper-casing each character first.
 */
module Alphabet {
  import opened Text

  /** The valid amino-acid letters (`VALID_AMINO_ACIDS`). */
  const AminoAcids: set<char> :=
    {'A', 'C', 'D', 'E', 'F', 'G', 'H', 'I', 'K', 'L',
     'M', 'N', 'P', 'Q', 'R', 'S', 'T', 'V', 'W', 'Y'}

  /** Python's `str.upper` on one character, as far as membership in the
      alphabet can tell: ASCII lower-case letters map to upper case, and the
      dotless i (U+0131) and the long s (U+017F) map to `I` and `S`.  Every
      other character is returned unchanged; Python's upper case of such a
      character is never a single letter of the alphabet, so the membership
      test answers the same. */
  function ToUpper(c: char): char
  {
    if 'a' <= c <= 'z' then (c as int - 32) as char
    else if c == '\U{131}' then 'I'
    else if c == '\U{17F}' then 'S'
    else c
  }

  /** `char.upper() in VALID_AMINO_ACIDS`. */
  predicate IsAminoAcid(c: char) {
    ToUpper(c) in AminoAcids
  }

  /** `_is_valid_epitope`: every character, upper-cased, is in the alphabet.
      The empty text is vacuously valid. */
  predicate IsValidEpitope(s: string) {
    forall k :: 0 <= k < |s| ==> IsAminoAcid(s[k])
  }

  /** The accepted characters listed out: the twenty letters in either case,
      plus the two non-ASCII letters whose upper case is `I` or `S`. */
  lemma AminoAcidChars(c: char)
    ensures IsAminoAcid(c) <==>
      c in AminoAcids
      || c in {'a', 'c', 'd', 'e', 'f', 'g', 'h', 'i', 'k', 'l',
               'm', 'n', 'p', 'q', 'r', 's', 't', 'v', 'w', 'y'}
      || c == '\U{131}' || c == '\U{17F}'
  {
  }

  /** An accepted character is never a separator and never whitespace. */
  lemma AminoAcidIsPlain(c: char)
    requires IsAminoAcid(c)
    ensures c != ',' && c != '\n' && !IsWhitespace(c)
  {
    AminoAcidChars(c);
  }

  /** A valid epitope holds no comma, no line break and no whitespace, so it
      survives splitting and stripping unchanged. */
  lemma ValidEpitopeIsPlain(s: string)
    requires IsValidEpitope(s)
    ensures ',' !in s && '\n' !in s
    ensures forall k :: 0 <= k < |s| ==> !IsWhitespace(s[k])
    ensures s != [] ==> Strip(s) == s
  {
    forall k | 0 <= k < |s|
      ensures s[k] != ',' && s[k] != '\n' && !IsWhitespace(s[k])
    {
      AminoAcidIsPlain(s[k]);
    }
  }
}
