/** UTF-16 code units, bytes and the handful of punctuation characters the
    escaping rules single out. A .NET `char` is a UTF-16 code unit (it may be
    half of a surrogate pair), so strings of the engine are sequences of
    `CodeUnit`, not Dafny `char`s (which exclude surrogates). */
module Text {

  /** One UTF-16 code unit, the value of a .NET `char`. */
  newtype CodeUnit = x: int | 0 <= x < 0x1_0000

  /** One byte of a UTF-8 encoding. */
  newtype Byte = x: int | 0 <= x < 0x100

  datatype Option<T> = None | Some(value: T)

  const SPACE: CodeUnit := ' ' as CodeUnit
  const PERCENT: CodeUnit := '%' as CodeUnit
  const QUESTION: CodeUnit := '?' as CodeUnit
  const HASH: CodeUnit := '#' as CodeUnit
  const SLASH: CodeUnit := '/' as CodeUnit
  const BACKSLASH: CodeUnit := '\\' as CodeUnit
  const DOT: CodeUnit := '.' as CodeUnit

  /** U+FFFD, what the UTF-8 encoder writes for a lone surrogate. */
  const REPLACEMENT: CodeUnit := 0xFFFD

  predicate IsSurrogate(c: CodeUnit) {
    0xD800 <= c <= 0xDFFF
  }

  predicate IsAsciiAlphaNumeric(c: CodeUnit) {
    ('A' as CodeUnit <= c <= 'Z' as CodeUnit) ||
    ('a' as CodeUnit <= c <= 'z' as CodeUnit) ||
    ('0' as CodeUnit <= c <= '9' as CodeUnit)
  }

  /** Printable ASCII other than space: the characters a fully escaped URI
      may contain literally. */
  predicate IsVisibleAscii(c: CodeUnit) {
    0x21 <= c <= 0x7E
  }
}
