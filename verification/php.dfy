/** The handful of PHP string semantics the plugin relies on: `empty()` on a
    string, and `trim()` with its default character list. */
module Php {

  /** PHP's `empty()` on a string: true for `""` and for `"0"`, false for every
      other string (including `" "` and `"00"`). */
  predicate Empty(s: string) {
    s == "" || s == "0"
  }

  /** The default character list of PHP's `trim()`: space, tab, line feed,
      carriage return, NUL and vertical tab. */
  predicate IsTrimChar(c: char) {
    c == ' ' || c == '\t' || c == '\n' || c == '\r' || c == '\0' || c == '\U{000B}'
  }

  /** Strips leading trim characters: the result is the suffix of `s` that
      starts at the first character that is not a trim character. */
  function TrimStart(s: string): (r: string)
    ensures |r| <= |s| && r == s[|s| - |r|..]
    ensures forall k :: 0 <= k < |s| - |r| ==> IsTrimChar(s[k])
    ensures |r| > 0 ==> !IsTrimChar(r[0])
  {
    if |s| > 0 && IsTrimChar(s[0]) then TrimStart(s[1..]) else s
  }

  /** Strips trailing trim characters: the result is the prefix of `s` that
      ends at the last character that is not a trim character. */
  function TrimEnd(s: string): (r: string)
    ensures |r| <= |s| && r == s[..|r|]
    ensures forall k :: |r| <= k < |s| ==> IsTrimChar(s[k])
    ensures |r| > 0 ==> !IsTrimChar(r[|r| - 1])
  {
    if |s| > 0 && IsTrimChar(s[|s| - 1]) then TrimEnd(s[..|s| - 1]) else s
  }

  /** PHP `trim($s)`: the longest infix of `s` that neither starts nor ends
      with a trim character, every character cut away being one. */
  function Trim(s: string): (r: string)
    ensures |r| <= |TrimStart(s)| <= |s|
    ensures r == TrimStart(s)[..|r|]
    ensures forall k :: |r| <= k < |TrimStart(s)| ==> IsTrimChar(TrimStart(s)[k])
    ensures |r| > 0 ==> !IsTrimChar(r[0]) && !IsTrimChar(r[|r| - 1])
  {
    TrimEnd(TrimStart(s))
  }

  /** A string that neither starts nor ends with a trim character is its own
      trim; in particular the plugin's consent words are. */
  lemma {:induction false} TrimFixesTrimmed(s: string)
    requires |s| > 0 ==> !IsTrimChar(s[0]) && !IsTrimChar(s[|s| - 1])
    ensures Trim(s) == s
  {
    assert TrimStart(s) == s;
    assert TrimEnd(s) == s;
  }
}
