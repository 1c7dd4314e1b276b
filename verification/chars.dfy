/** Character classes the source relies on. */
module Chars {

  /** `Character.isWhitespace(c)`: the Unicode space, line and paragraph separators
      other than the three no-break spaces, plus the ASCII controls U+0009..U+000D
      and U+001C..U+001F. */
  predicate IsWhitespace(c: char)
  {
    || c == ' '
    || ('\t' <= c <= '\r')
    || ('\U{1C}' <= c <= '\U{1F}')
    || c == '\U{1680}'
    || ('\U{2000}' <= c <= '\U{2006}')
    || ('\U{2008}' <= c <= '\U{200A}')
    || c == '\U{2028}'
    || c == '\U{2029}'
    || c == '\U{205F}'
    || c == '\U{3000}'
  }

  /** What `String.trim()` strips: every character up to and including U+0020. */
  predicate IsTrimmable(c: char)
  {
    c <= ' '
  }

  /** The characters the regular expression class `[a-zA-Z0-9 ]` admits. */
  predicate IsWordChar(c: char)
  {
    ('a' <= c <= 'z') || ('A' <= c <= 'Z') || ('0' <= c <= '9')
  }
}
