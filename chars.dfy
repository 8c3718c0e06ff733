/**
 * Character classes used by the Arabic preprocessor's regular expressions,
 * written as plain code-point range tests.
 */
module CharClasses {

  /** Python's `\d` on str patterns: the decimal digits (Unicode category Nd)
      of the Basic Multilingual Plane, one block of ten per script. */
  predicate IsDigit(c: char) {
    ('0' <= c <= '9') ||
    ('\U{0660}' <= c <= '\U{0669}') || ('\U{06F0}' <= c <= '\U{06F9}') ||
    ('\U{07C0}' <= c <= '\U{07C9}') || ('\U{0966}' <= c <= '\U{096F}') ||
    ('\U{09E6}' <= c <= '\U{09EF}') || ('\U{0A66}' <= c <= '\U{0A6F}') ||
    ('\U{0AE6}' <= c <= '\U{0AEF}') || ('\U{0B66}' <= c <= '\U{0B6F}') ||
    ('\U{0BE6}' <= c <= '\U{0BEF}') || ('\U{0C66}' <= c <= '\U{0C6F}') ||
    ('\U{0CE6}' <= c <= '\U{0CEF}') || ('\U{0D66}' <= c <= '\U{0D6F}') ||
    ('\U{0DE6}' <= c <= '\U{0DEF}') || ('\U{0E50}' <= c <= '\U{0E59}') ||
    ('\U{0ED0}' <= c <= '\U{0ED9}') || ('\U{0F20}' <= c <= '\U{0F29}') ||
    ('\U{1040}' <= c <= '\U{1049}') || ('\U{1090}' <= c <= '\U{1099}') ||
    ('\U{17E0}' <= c <= '\U{17E9}') || ('\U{1810}' <= c <= '\U{1819}') ||
    ('\U{1946}' <= c <= '\U{194F}') || ('\U{19D0}' <= c <= '\U{19D9}') ||
    ('\U{1A80}' <= c <= '\U{1A89}') || ('\U{1A90}' <= c <= '\U{1A99}') ||
    ('\U{1B50}' <= c <= '\U{1B59}') || ('\U{1BB0}' <= c <= '\U{1BB9}') ||
    ('\U{1C40}' <= c <= '\U{1C49}') || ('\U{1C50}' <= c <= '\U{1C59}') ||
    ('\U{A620}' <= c <= '\U{A629}') || ('\U{A8D0}' <= c <= '\U{A8D9}') ||
    ('\U{A900}' <= c <= '\U{A909}') || ('\U{A9D0}' <= c <= '\U{A9D9}') ||
    ('\U{A9F0}' <= c <= '\U{A9F9}') || ('\U{AA50}' <= c <= '\U{AA59}') ||
    ('\U{ABF0}' <= c <= '\U{ABF9}') || ('\U{FF10}' <= c <= '\U{FF19}')
  }

  /** Python's `\s` on str patterns, which is also what `str.split()` splits on
      (the characters for which `str.isspace()` holds). */
  predicate IsSpace(c: char) {
    ('\t' <= c <= '\r') || ('\U{001C}' <= c <= '\U{001F}') || c == ' ' ||
    c == '\U{0085}' || c == '\U{00A0}' || c == '\U{1680}' ||
    ('\U{2000}' <= c <= '\U{200A}') || c == '\U{2028}' || c == '\U{2029}' ||
    c == '\U{202F}' || c == '\U{205F}' || c == '\U{3000}'
  }

  predicate IsAsciiLetter(c: char) {
    ('a' <= c <= 'z') || ('A' <= c <= 'Z')
  }

  /** The characters that the punctuation-padding pattern leaves alone:
      `0-9`, U+0621-U+063A, U+0641-U+064A, U+0660-U+0669, `a-zA-Z` and the space. */
  predicate IsPadExempt(c: char) {
    ('0' <= c <= '9') || ('\U{0621}' <= c <= '\U{063A}') || ('\U{0641}' <= c <= '\U{064A}') ||
    ('\U{0660}' <= c <= '\U{0669}') || IsAsciiLetter(c) || c == ' '
  }

  /** The letter class of the digit/letter separation patterns:
      U+0621-U+063A, U+0641-U+064A, U+066A-U+066C and U+0654-U+0655. */
  predicate IsArabicLetter(c: char) {
    ('\U{0621}' <= c <= '\U{063A}') || ('\U{0641}' <= c <= '\U{064A}') ||
    ('\U{066A}' <= c <= '\U{066C}') || ('\U{0654}' <= c <= '\U{0655}')
  }

  /** The punctuation listed one by one in the allowed class. */
  const AllowedPunctuation: string :=
    "[]!\"#$%'()*+,.:;-<=\U{00B7}>?@\\^_\U{0640}`{|}~\U{2014}\U{066A}\U{2019}\U{060C}\U{061F}" +
    "\U{0B4D}\U{201C}\U{061B}\U{201D}\U{06DA}\U{00BB}\U{00AB}\U{2013}\U{2026}\U{2018}/"

  /** The allowed class of `rejected_chars_regex`: the characters that survive
      filtering when emojis are not kept. */
  predicate IsAllowed(c: char) {
    ('0' <= c <= '9') || ('\U{0621}' <= c <= '\U{063A}') || ('\U{0641}' <= c <= '\U{066C}') ||
    ('\U{0671}' <= c <= '\U{0674}') || IsAsciiLetter(c) || c in AllowedPunctuation || IsSpace(c)
  }

  /** The class `chars_regex`, used when emojis are kept; its second range starts
      at U+0640 instead of U+0641. */
  predicate InCharsClass(c: char) {
    ('0' <= c <= '9') || ('\U{0621}' <= c <= '\U{063A}') || ('\U{0640}' <= c <= '\U{066C}') ||
    ('\U{0671}' <= c <= '\U{0674}') || IsAsciiLetter(c) || c in AllowedPunctuation || IsSpace(c)
  }

  /** The two spellings of the allowed class denote the same set, because the
      tatweel U+0640 is also listed among the punctuation. */
  lemma ClassesAgree(c: char)
    ensures InCharsClass(c) <==> IsAllowed(c)
  {
    if c == '\U{0640}' {
      assert AllowedPunctuation[26] == c;
    }
  }

  /** The eight Arabic diacritics (tashkeel): fathatan through sukun, U+064B-U+0652. */
  predicate IsTashkeel(c: char) {
    '\U{064B}' <= c <= '\U{0652}'
  }

  /** The elongation character (tatweel, kashida). */
  const Tatweel: char := '\U{0640}'

  predicate IsTatweel(c: char) {
    c == Tatweel
  }

  /** The emoji-presentation variation selector removed before the final split. */
  const VariationSelector16: char := '\U{FE0F}'

  /** The variation selector is not in the allowed class. */
  lemma VariationSelectorRejected()
    ensures !IsAllowed(VariationSelector16) && !InCharsClass(VariationSelector16)
  {
    forall i | 0 <= i < |AllowedPunctuation| ensures AllowedPunctuation[i] < '\U{3000}' {
    }
  }

  predicate IsBlank(c: char) {
    c == ' '
  }

  /** No Arabic-class letter is a digit, so a digit run and a letter run never overlap. */
  lemma DigitsAreNotLetters(c: char)
    ensures !(IsDigit(c) && IsArabicLetter(c))
  {
  }
}
