/** Character classes, ASCII case folding and run scanning: the pieces of
    Python's `re` syntax (`\b`, `\w`, `\s`, `[^\s,`"]`, `re.IGNORECASE`) that the
    fixed patterns of analyze_phone_pii.py use, restricted to ASCII letters. */
module Text {

  datatype Option<T> = None | Some(value: T)

  /** `\w`, restricted to ASCII: letters, digits and the underscore. */
  predicate IsWordChar(c: char) {
    'a' <= c <= 'z' || 'A' <= c <= 'Z' || '0' <= c <= '9' || c == '_'
  }

  /** `\s` for a `str` pattern: the characters for which Python's `str.isspace()` holds. */
  predicate IsSpace(c: char) {
    c == ' ' || '\t' <= c <= '\r' || '\U{1C}' <= c <= '\U{1F}' || c == '\U{85}' || c == '\U{A0}'
    || c == '\U{1680}' || '\U{2000}' <= c <= '\U{200A}' || c == '\U{2028}' || c == '\U{2029}'
    || c == '\U{202F}' || c == '\U{205F}' || c == '\U{3000}'
  }

  /** The two delimiters the table regex accepts around a table name. */
  predicate IsQuote(c: char) {
    c == '`' || c == '"'
  }

  /** The character class `[^\s,`"]` of the table regex. */
  predicate IsTokenChar(c: char) {
    !IsSpace(c) && c != ',' && !IsQuote(c)
  }

  /** What `str.lower()` does to an ASCII letter; every other character is kept. */
  function LowerChar(c: char): (r: char)
    ensures IsWordChar(r) == IsWordChar(c)
    ensures 'A' <= c <= 'Z' ==> 'a' <= r <= 'z'
    ensures !('A' <= c <= 'Z') ==> r == c
  {
    if 'A' <= c <= 'Z' then (c as int + 32) as char else c
  }

  /** `str.lower()` on a whole string. */
  function Lower(s: string): (r: string)
    ensures |r| == |s|
    ensures forall k :: 0 <= k < |s| ==> r[k] == LowerChar(s[k])
  {
    seq(|s|, k requires 0 <= k < |s| => LowerChar(s[k]))
  }

  /** Two characters match each other under `re.IGNORECASE` (ASCII folding). */
  predicate CiEq(a: char, b: char) {
    LowerChar(a) == LowerChar(b)
  }

  /** The literal `w` occurs at position `i` of `s`, ignoring case. */
  predicate CiAt(s: string, i: nat, w: string) {
    i + |w| <= |s| && forall k :: 0 <= k < |w| ==> CiEq(s[i + k], w[k])
  }

  /** A pattern literal the engine can only match against word characters:
      non-empty, lower-case ASCII letters, digits and underscores. */
  predicate IsLowerWord(w: string) {
    |w| > 0 && forall k :: 0 <= k < |w| ==> 'a' <= w[k] <= 'z' || '0' <= w[k] <= '9' || w[k] == '_'
  }

  /** Position `j` of `s` holds a word character (positions outside `s` do not). */
  predicate WordAt(s: string, j: int) {
    0 <= j < |s| && IsWordChar(s[j])
  }

  /** The zero-width assertion `\b` at position `j`, for `0 <= j <= |s|`. */
  predicate Boundary(s: string, j: int) {
    WordAt(s, j - 1) != WordAt(s, j)
  }

  /** A whole word begins at `i`. */
  predicate WordStart(s: string, i: nat) {
    WordAt(s, i) && !WordAt(s, i - 1)
  }

  /** The end of the longest run of characters satisfying `inRun` that starts at `i`:
      what a greedy `\w+`, `\s+` or `[^\s,`"]*` consumes before it gives anything back. */
  function RunEnd(s: string, i: nat, inRun: char -> bool): (r: nat)
    requires i <= |s|
    ensures i <= r <= |s|
    ensures forall k :: i <= k < r ==> inRun(s[k])
    ensures r == |s| || !inRun(s[r])
    decreases |s| - i
  {
    if i == |s| || !inRun(s[i]) then i else RunEnd(s, i + 1, inRun)
  }

  /** A character that folds to a lower-case word character of a pattern is itself a word character. */
  lemma CiEqWord(c: char, w: char)
    requires 'a' <= w <= 'z' || '0' <= w <= '9' || w == '_'
    requires CiEq(c, w)
    ensures IsWordChar(c) && IsTokenChar(c)
    ensures w == '_' ==> c == '_'
  {
  }

  /** Matching ignoring case sees no difference between a string and its lower-case form. */
  lemma {:induction false} CiAtLower(s: string, i: nat, w: string)
    ensures CiAt(Lower(s), i, w) <==> CiAt(s, i, w)
  {
    var t := Lower(s);
    if i + |w| <= |s| {
      forall k | 0 <= k < |w|
        ensures CiEq(t[i + k], w[k]) <==> CiEq(s[i + k], w[k])
      {
        assert t[i + k] == LowerChar(s[i + k]);
      }
    }
  }

  /** Lower-casing moves no word boundary. */
  lemma BoundaryLower(s: string, j: int)
    ensures Boundary(Lower(s), j) <==> Boundary(s, j)
    ensures WordAt(Lower(s), j) <==> WordAt(s, j)
  {
  }

  /** Lower-casing keeps every run of word characters, spaces or token characters where it was. */
  lemma {:induction false} RunEndLower(s: string, i: nat)
    requires i <= |s|
    ensures RunEnd(Lower(s), i, IsWordChar) == RunEnd(s, i, IsWordChar)
    ensures RunEnd(Lower(s), i, IsSpace) == RunEnd(s, i, IsSpace)
    decreases |s| - i
  {
    if i < |s| {
      assert Lower(s)[i] == LowerChar(s[i]);
      RunEndLower(s, i + 1);
    }
  }

  /** A run ends where the first character outside it stands. */
  lemma {:induction false} RunEndAt(s: string, i: nat, e: nat, inRun: char -> bool)
    requires i <= e <= |s|
    requires forall k :: i <= k < e ==> inRun(s[k])
    requires e == |s| || !inRun(s[e])
    ensures RunEnd(s, i, inRun) == e
    decreases e - i
  {
    if i < e {
      RunEndAt(s, i + 1, e, inRun);
    }
  }

  /** Skipping characters that belong to the run does not move its end. */
  lemma {:induction false} RunEndSkip(s: string, i: nat, m: nat, inRun: char -> bool)
    requires i <= m <= |s|
    requires forall k :: i <= k < m ==> inRun(s[k])
    ensures RunEnd(s, i, inRun) == RunEnd(s, m, inRun)
    decreases m - i
  {
    if i < m {
      RunEndSkip(s, i + 1, m, inRun);
    }
  }
}
