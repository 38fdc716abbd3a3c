/** C strings and the comparison of words without regard to case. */
module SqlText {

  /** The bytes of a C string, written as characters, without NUL. */
  type CString = z: string | forall i :: 0 <= i < |z| ==> '\0' < z[i] <= '\U{00ff}'

  function Lower(c: char): char {
    if 'A' <= c <= 'Z' then c + ('a' - 'A') else c
  }

  /** sqlite3StrNICmp(zSql, word, n) == 0 for a lower-case word of length n. */
  predicate SameWord(w: string, word: string) {
    |w| == |word| && forall i :: 0 <= i < |w| ==> Lower(w[i]) == word[i]
  }
}
