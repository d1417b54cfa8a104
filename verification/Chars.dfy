/** Characters and positions, as the line readers see them. */
module Chars {

  predicate IsDigit(c: char) { '0' <= c <= '9' }

  predicate AllDigits(s: string) {
    forall i :: 0 <= i < |s| ==> IsDigit(s[i])
  }

  /** The character at k, or the terminator past the end. */
  function CharAt(s: string, k: nat): char {
    if k < |s| then s[k] else '\0'
  }
}
