/** Glyphs and character classes used by the normalisation rules.
    Every constant is the code point the rules of PAKNEVIS.py spell out. */
module Chars {

  /** Zero-width non-joiner, the Persian half-space. */
  const ZWNJ: char := '\U{200C}'

  // Letters rewritten by fix_k_y.
  const ARABIC_KAF: char := '\U{0643}'
  const PERSIAN_KAF: char := '\U{06A9}'
  const ARABIC_YEH: char := '\U{064A}'
  const PERSIAN_YEH: char := '\U{06CC}'

  // Punctuation produced by fix_punct.
  const FA_COMMA: char := '\U{060C}'
  const FA_SEMICOLON: char := '\U{061B}'
  const FA_QUESTION: char := '\U{061F}'
  const RIAL_SIGN: char := '\U{FDFC}'
  const FA_PERCENT: char := '\U{066A}'

  // Guillemets, brackets and the ellipsis glyph.
  const OPEN_QUOTE: char := '\U{00AB}'
  const CLOSE_QUOTE: char := '\U{00BB}'
  const OPEN_ANGLE: char := '\U{27E8}'
  const CLOSE_ANGLE: char := '\U{27E9}'
  const ELLIPSIS: char := '\U{2026}'

  predicate IsArabicKaf(c: char) { c == ARABIC_KAF }

  predicate IsArabicYeh(c: char) { c == ARABIC_YEH }

  /** Python's `\s` on str patterns: the ASCII whitespace (including the
      four information separators U+001C..U+001F) plus every code point
      whose bidirectional class is WS, B or S or whose category is Zs.
      U+2005 is whitespace; ZWNJ and the zero-width space are not. */
  predicate IsSpace(c: char) {
    || ('\U{0009}' <= c <= '\U{000D}')
    || ('\U{001C}' <= c <= '\U{0020}')
    || c == '\U{0085}' || c == '\U{00A0}' || c == '\U{1680}'
    || ('\U{2000}' <= c <= '\U{200A}')
    || c == '\U{2028}' || c == '\U{2029}' || c == '\U{202F}'
    || c == '\U{205F}' || c == '\U{3000}'
  }

  predicate IsEnDigit(c: char) { '0' <= c <= '9' }

  predicate IsArDigit(c: char) { '\U{0660}' <= c <= '\U{0669}' }

  predicate IsFaDigit(c: char) { '\U{06F0}' <= c <= '\U{06F9}' }

  /** The six quote glyphs fix_quotes rewrites: straight and curly,
      single and double. */
  predicate IsQuote(c: char) {
    c == '"' || c == '\'' || c == '\U{201C}' || c == '\U{201D}'
    || c == '\U{2018}' || c == '\U{2019}'
  }

  predicate IsGuillemet(c: char) { c == OPEN_QUOTE || c == CLOSE_QUOTE }

  /** The seven invisible or format characters fix_fake_hyphens_with_zwnj
      maps to ZWNJ, in its order: soft hyphen, not sign, right-to-left
      mark, four-per-em space, byte-order mark, zero-width space,
      zero-width joiner. */
  const FAKE_CHARS: seq<char> :=
    ['\U{00AD}', '\U{00AC}', '\U{200F}', '\U{2005}', '\U{FEFF}', '\U{200B}', '\U{200D}']

  predicate IsFakeHyphen(c: char) {
    c == '\U{00AD}' || c == '\U{00AC}' || c == '\U{200F}' || c == '\U{2005}'
    || c == '\U{FEFF}' || c == '\U{200B}' || c == '\U{200D}'
  }

  /** The ASCII punctuation fix_punct maps to Persian glyphs. */
  predicate IsEnPunct(c: char) {
    c == ',' || c == ';' || c == '?' || c == '$' || c == '%'
  }

  /** The capture class `[،؛:؟!.»\]\)\}]` of fix_space_before_punct. */
  predicate IsPunctBeforeClass(c: char) {
    c == FA_COMMA || c == FA_SEMICOLON || c == ':' || c == FA_QUESTION
    || c == '!' || c == '.' || c == CLOSE_QUOTE || c == ']' || c == ')' || c == '}'
  }

  /** The capture class `[،؛؟.\)»\]\}\⟩]` of the first step of fix_extra_spaces. */
  predicate IsExtraSpaceClass(c: char) {
    c == FA_COMMA || c == FA_SEMICOLON || c == FA_QUESTION || c == '.'
    || c == ')' || c == CLOSE_QUOTE || c == ']' || c == '}' || c == CLOSE_ANGLE
  }

  /** The openers whose case fix_space_before_punct tests for. */
  predicate IsOpenerCase(c: char) { c == '(' || c == '[' || c == OPEN_QUOTE }

  /** The five opening and five closing brackets fix_spaces trims inside. */
  predicate IsOpener(c: char) {
    c == OPEN_QUOTE || c == '(' || c == '[' || c == '{' || c == OPEN_ANGLE
  }

  predicate IsCloser(c: char) {
    c == CLOSE_QUOTE || c == ')' || c == ']' || c == '}' || c == CLOSE_ANGLE
  }
}
