/** Character classes of ECMAScript that the editor's string handling relies on.
    The regular-expression class `\s` and the white space that `parseInt` skips
    are the same set: WhiteSpace (TAB, VT, FF, ZWNBSP and every Zs space) plus
    LineTerminator (LF, CR, LS, PS). */
module JsText {

  /** A LineTerminator: the characters after which a multiline `^` may match. */
  predicate IsLineTerminator(c: char)
  {
    c == '\n' || c == '\r' || c == '\U{2028}' || c == '\U{2029}'
  }

  /** A member of the Unicode category Zs (space separators). */
  predicate IsSpaceSeparator(c: char)
  {
    || c == ' ' || c == '\U{00A0}' || c == '\U{1680}'
    || ('\U{2000}' <= c <= '\U{200A}')
    || c == '\U{202F}' || c == '\U{205F}' || c == '\U{3000}'
  }

  /** The class `\s` of a regular expression. */
  predicate IsSpace(c: char)
  {
    || c == '\t' || c == '\U{000B}' || c == '\U{000C}' || c == '\U{FEFF}'
    || IsSpaceSeparator(c) || IsLineTerminator(c)
  }
}
