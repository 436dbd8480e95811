/**
 * The character classes of Python's `str` methods the scripts call. ASCII
 * is written out; beyond ASCII the Unicode database is a parameter: `Db`
 * carries `unicodedata.normalize("NFD", ·)`, `str.isupper`, and which
 * non-ASCII characters are alphabetic or numeric.
 */
module UnicodeDb {

  datatype Db = Db(
    nfd: string -> string,
    isUpper: string -> bool,
    isAlphaBeyondAscii: char -> bool,
    isNumericBeyondAscii: char -> bool)

  predicate IsAsciiLetter(c: char) {
    'A' <= c <= 'Z' || 'a' <= c <= 'z'
  }

  predicate IsAsciiDigit(c: char) {
    '0' <= c <= '9'
  }

  /** `c.isalpha()`. */
  predicate PyIsAlpha(db: Db, c: char) {
    if c < '\U{0080}' then IsAsciiLetter(c) else db.isAlphaBeyondAscii(c)
  }

  /** `c.isalnum()`: alphabetic, or one of the numeric classes. */
  predicate PyIsAlnum(db: Db, c: char) {
    PyIsAlpha(db, c) || (if c < '\U{0080}' then IsAsciiDigit(c) else db.isNumericBeyondAscii(c))
  }

  /** `c.isspace()`: the fixed set of code points Python strips. */
  predicate PyIsSpace(c: char) {
    ('\t' <= c <= '\r') || ('\U{001C}' <= c <= ' ') || c == '\U{0085}' || c == '\U{00A0}'
    || c == '\U{1680}' || ('\U{2000}' <= c <= '\U{200A}') || c == '\U{2028}' || c == '\U{2029}'
    || c == '\U{202F}' || c == '\U{205F}' || c == '\U{3000}'
  }

  function PyStripStart(s: string): string {
    if s != [] && PyIsSpace(s[0]) then PyStripStart(s[1..]) else s
  }

  function PyStripEnd(s: string): string {
    if s != [] && PyIsSpace(s[|s| - 1]) then PyStripEnd(s[..|s| - 1]) else s
  }

  /** `s.strip()`. */
  function PyStrip(s: string): string {
    PyStripEnd(PyStripStart(s))
  }

  /** `c.lower()` on an ASCII letter. */
  function AsciiLower(c: char): char {
    if 'A' <= c <= 'Z' then (c as int + 32) as char else c
  }
}
