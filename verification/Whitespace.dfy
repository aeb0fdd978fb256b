/** What `String.prototype.trim` removes (ECMA-262 WhiteSpace and LineTerminator). */
module Whitespace {
  predicate IsSpace(c: char) {
    c in " \t\n\r" || c == '\U{000B}' || c == '\U{000C}' || c == '\U{00A0}' || c == '\U{FEFF}'
    || c == '\U{1680}' || '\U{2000}' <= c <= '\U{200A}' || c == '\U{2028}' || c == '\U{2029}'
    || c == '\U{202F}' || c == '\U{205F}' || c == '\U{3000}'
  }
}
