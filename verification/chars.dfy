/** Character classes used by the tokenizer regular expressions and by
    Python's `str` methods.

    Python classifies characters through the Unicode database; this module
    fixes concrete ranges that cover the scripts Uzbek text is written in
    (ASCII, Latin-1, Latin Extended-A/B, the IPA and spacing-modifier letters
    that include the okina-like marks, and Cyrillic). */
module CharClass {

  /** `str.isspace()`, which is also what `str.split()` and `str.strip()` with
      no argument treat as whitespace. */
  predicate IsSpace(c: char)
  {
    || ('\t' <= c <= '\r')
    || ('\U{1C}' <= c <= ' ')
    || c == '\U{85}' || c == '\U{A0}' || c == '\U{1680}'
    || ('\U{2000}' <= c <= '\U{200A}')
    || c == '\U{2028}' || c == '\U{2029}' || c == '\U{202F}' || c == '\U{205F}'
    || c == '\U{3000}'
  }

  predicate IsAsciiUpper(c: char) { 'A' <= c <= 'Z' }

  predicate IsAsciiLower(c: char) { 'a' <= c <= 'z' }

  /** Regex `\d` (decimal digits). */
  predicate IsDigit(c: char) { '0' <= c <= '9' }

  /** The class `[a-zA-Z0-9]`. */
  predicate IsAsciiAlnum(c: char) { IsAsciiUpper(c) || IsAsciiLower(c) || IsDigit(c) }

  /** `str.isalpha()`. */
  predicate IsAlpha(c: char)
  {
    || IsAsciiUpper(c) || IsAsciiLower(c)
    || c == '\U{AA}' || c == '\U{B5}' || c == '\U{BA}'
    || ('\U{C0}' <= c <= '\U{D6}') || ('\U{D8}' <= c <= '\U{F6}')
    || ('\U{F8}' <= c <= '\U{2C1}') || ('\U{2C6}' <= c <= '\U{2D1}')
    || ('\U{400}' <= c <= '\U{481}') || ('\U{48A}' <= c <= '\U{52F}')
  }

  /** Regex `\w`: letters, digits and the underscore. */
  predicate IsWordChar(c: char) { IsAlpha(c) || IsDigit(c) || c == '_' }

  /** The ASCII apostrophe, the canonical form of every quote mark. */
  const Apostrophe: char := '\''

  /** The four quote-like code points that are rewritten to `'`:
      right and left single quotation marks, modifier letter turned comma
      (the Uzbek okina) and modifier letter apostrophe. */
  predicate IsFancyQuote(c: char)
  {
    c == '\U{2019}' || c == '\U{2018}' || c == '\U{2BB}' || c == '\U{2BC}'
  }

  /** The chain of four `.replace(..., "'")` calls, applied to one character. */
  function UnifyQuote(c: char): (r: char)
    ensures !IsFancyQuote(r)
    ensures r == Apostrophe <==> c == Apostrophe || IsFancyQuote(c)
    ensures !IsFancyQuote(c) ==> r == c
  {
    if IsFancyQuote(c) then Apostrophe else c
  }

  /** `str.lower()` on one character. */
  function LowerChar(c: char): (r: char)
    ensures !IsAsciiUpper(r)
    ensures IsAsciiUpper(c) ==> IsAsciiLower(r) && r as int == c as int + 32
    ensures !IsFancyQuote(r) && r != Apostrophe <==> !IsFancyQuote(c) && c != Apostrophe
    ensures IsAsciiAlnum(r) <==> IsAsciiAlnum(c)
  {
    if IsAsciiUpper(c) then (c as int + 32) as char
    else if '\U{C0}' <= c <= '\U{DE}' && c != '\U{D7}' then (c as int + 32) as char
    else if '\U{400}' <= c <= '\U{40F}' then (c as int + 80) as char
    else if '\U{410}' <= c <= '\U{42F}' then (c as int + 32) as char
    else if c == '\U{492}' || c == '\U{49A}' || c == '\U{4B2}' then (c as int + 1) as char
    else c
  }

  /** The class `[a-zA-Z0-9ʻʼ']` that the leading and trailing strip keeps. */
  predicate IsEdgeChar(c: char)
  {
    IsAsciiAlnum(c) || c == Apostrophe || c == '\U{2BB}' || c == '\U{2BC}'
  }

  /** The complement of `[^\w'ʻʼ-]`: what the interior clean-up keeps. */
  predicate IsKeptChar(c: char)
  {
    IsWordChar(c) || c == Apostrophe || c == '\U{2BB}' || c == '\U{2BC}' || c == '-'
  }

  /** Lowering a lowered character changes nothing. */
  lemma {:induction false} LowerCharIdempotent(c: char)
    ensures LowerChar(LowerChar(c)) == LowerChar(c)
  {
  }
}
