/** Character classes of <ctype.h> in the C locale. */
module CTypes {

  predicate IsSpace(c: char) {
    c == ' ' || '\t' <= c <= '\r'
  }

  predicate IsGraph(c: char) {
    '!' <= c <= '~'
  }

  predicate IsPrint(c: char) {
    ' ' <= c <= '~'
  }

  predicate AllGraph(s: string) {
    forall i :: 0 <= i < |s| ==> IsGraph(s[i])
  }
}
