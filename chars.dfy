/**
 * Character classes and small scanning helpers with the meaning they have in
 * a JavaScript regular expression written without the `u` flag: `\d`, `\w`
 * and `\b` are ASCII-only, `\s` is the ECMAScript white-space set, and
 * under the `i` flag no non-ASCII character folds onto the ASCII letters the
 * pattern spells, so folding only the ASCII capitals is exact for it.
 */
module Chars {

  /** `\d` */
  predicate IsDigit(c: char) {
    '0' <= c <= '9'
  }

  /** `\w` */
  predicate IsWordChar(c: char) {
    'a' <= c <= 'z' || 'A' <= c <= 'Z' || IsDigit(c) || c == '_'
  }

  /** `\s`: ECMAScript WhiteSpace and LineTerminator code points */
  predicate IsSpace(c: char) {
    c == ' ' || c == '\t' || c == '\n' || c == '\r'
    || c == '\U{000B}' || c == '\U{000C}' || c == '\U{00A0}' || c == '\U{1680}'
    || ('\U{2000}' <= c <= '\U{200A}')
    || c == '\U{2028}' || c == '\U{2029}' || c == '\U{202F}' || c == '\U{205F}'
    || c == '\U{3000}' || c == '\U{FEFF}'
  }

  /** Case folding of the `i` flag, restricted to the ASCII letters the pattern spells. */
  function Lower(c: char): char {
    if 'A' <= c <= 'Z' then (c as int + 32) as char else c
  }

  /** `t[i..]` begins with the lower-case word `w`, ignoring ASCII case. */
  predicate HasAt(t: string, i: nat, w: string) {
    i + |w| <= |t| && forall k :: 0 <= k < |w| ==> Lower(t[i + k]) == w[k]
  }

  predicate CharAt(t: string, i: nat, c: char) {
    i < |t| && t[i] == c
  }

  /** Position `j` of `t` holds a word character (positions outside `t` do not). */
  predicate IsWordAt(t: string, j: int) {
    0 <= j < |t| && IsWordChar(t[j])
  }

  /** `\b` at position `i`: exactly one of the characters around `i` is a word character. */
  predicate Boundary(t: string, i: nat) {
    IsWordAt(t, i - 1) != IsWordAt(t, i)
  }

  /** A word character at `p` with no word character just before it. */
  predicate WordStart(t: string, p: nat) {
    IsWordAt(t, p) && !IsWordAt(t, p - 1)
  }

  /** The end of the longest run of characters of a class starting at `i`. */
  function RunEnd(t: string, i: nat, inClass: char -> bool): (j: nat)
    requires i <= |t|
    ensures i <= j <= |t|
    ensures forall k :: i <= k < j ==> inClass(t[k])
    ensures j == |t| || !inClass(t[j])
    decreases |t| - i
  {
    if i < |t| && inClass(t[i]) then RunEnd(t, i + 1, inClass) else i
  }

  /** Two characters that read as `a` and `b`, ignoring case, begin the word `[a, b]`. */
  lemma HasAtPair(t: string, i: nat, a: char, b: char)
    requires i + 2 <= |t| && Lower(t[i]) == a && Lower(t[i + 1]) == b
    ensures HasAt(t, i, [a, b])
  {
  }

  /** A run that stops where the class does is the run `RunEnd` finds. */
  lemma RunEndUnique(t: string, i: nat, inClass: char -> bool, e: nat)
    requires i <= e <= |t| && (forall k :: i <= k < e ==> inClass(t[k]))
    requires e == |t| || !inClass(t[e])
    ensures RunEnd(t, i, inClass) == e
  {
  }

  /** A slice of a slice is the slice of the whole at the shifted positions. */
  lemma SliceOfSlice(t: string, a: nat, b: nat, i: nat, j: nat)
    requires a <= i <= j <= b <= |t|
    ensures t[a..b][i - a..j - a] == t[i..j]
  {
    assert |t[a..b][i - a..j - a]| == |t[i..j]|;
    forall k | 0 <= k < j - i
      ensures t[a..b][i - a..j - a][k] == t[i..j][k]
    {
      assert t[a..b][i - a..j - a][k] == t[a..b][i - a + k] == t[i + k];
    }
  }

  /** A stretch of the class from `i` lies inside the run `RunEnd` finds. */
  lemma RunCovers(t: string, i: nat, j: nat, inClass: char -> bool)
    requires i <= j <= |t| && (forall k :: i <= k < j ==> inClass(t[k]))
    ensures j <= RunEnd(t, i, inClass)
  {
  }
}
