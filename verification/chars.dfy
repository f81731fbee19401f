/** Character classes used by the settings-file patterns and by the URL form filter. */
module Chars {

  /** `\d`, restricted to ASCII. */
  predicate IsDigit(c: char)
  {
    '0' <= c <= '9'
  }

  /** `\w`, restricted to ASCII: letters, digits and the underscore. */
  predicate IsWordChar(c: char)
  {
    'a' <= c <= 'z' || 'A' <= c <= 'Z' || IsDigit(c) || c == '_'
  }

  /** The characters the settings-file field names are spelled with. */
  predicate IsNameChar(c: char)
  {
    'A' <= c <= 'Z' || c == '_'
  }

  /** Python's `str.isspace()`: what a bare `str.strip()` removes. */
  predicate IsSpace(c: char)
  {
    || '\t' <= c <= '\r'
    || '\U{1C}' <= c <= '\U{1F}'
    || c == ' '
    || c == '\U{85}'
    || c == '\U{A0}'
    || c == '\U{1680}'
    || '\U{2000}' <= c <= '\U{200A}'
    || c == '\U{2028}'
    || c == '\U{2029}'
    || c == '\U{202F}'
    || c == '\U{205F}'
    || c == '\U{3000}'
  }

  lemma NameCharIsWordChar(c: char)
    requires IsNameChar(c)
    ensures IsWordChar(c) && !IsDigit(c) && c != '=' && c != '"'
  {
  }
}
