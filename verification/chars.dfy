/** Character classes of Python's `re` module on `str` patterns. */
module Chars {

  /** `\s`: the characters for which `str.isspace()` holds. */
  predicate IsSpace(c: char) {
    var n := c as int;
    (0x09 <= n <= 0x0D) || (0x1C <= n <= 0x20) || n == 0x85 || n == 0xA0 || n == 0x1680 ||
    (0x2000 <= n <= 0x200A) || n == 0x2028 || n == 0x2029 || n == 0x202F || n == 0x205F || n == 0x3000
  }

  /** `\w`, restricted to ASCII: letters, digits and the underscore. */
  predicate IsWordChar(c: char) {
    ('a' <= c <= 'z') || ('A' <= c <= 'Z') || ('0' <= c <= '9') || c == '_'
  }

  predicate AllSpace(s: string) {
    forall i :: 0 <= i < |s| ==> IsSpace(s[i])
  }

  /** Where the run of `\s` characters starting at `from` ends. */
  function SkipSpaces(s: string, from: nat): (j: nat)
    requires from <= |s|
    ensures from <= j <= |s|
    ensures forall i :: from <= i < j ==> IsSpace(s[i])
    ensures j < |s| ==> !IsSpace(s[j])
    decreases |s| - from
  {
    if from < |s| && IsSpace(s[from]) then SkipSpaces(s, from + 1) else from
  }

  /** The end of the run is the only position with those two properties. */
  lemma SkipSpacesUnique(s: string, from: nat, j: nat)
    requires from <= j <= |s|
    requires forall i :: from <= i < j ==> IsSpace(s[i])
    requires j < |s| ==> !IsSpace(s[j])
    ensures SkipSpaces(s, from) == j
  {
    var k := SkipSpaces(s, from);
  }

  /** `s` without its leading run of `\s` characters. */
  function DropSpaces(s: string): (r: string)
    ensures |r| <= |s|
    ensures |s| > 0 && IsSpace(s[0]) ==> |r| < |s|
    ensures |r| > 0 ==> !IsSpace(r[0])
  {
    s[SkipSpaces(s, 0)..]
  }

  /** A leading whitespace character is skipped with the rest of its run. */
  lemma DropSpacesCons(s: string)
    requires |s| > 0 && IsSpace(s[0])
    ensures DropSpaces(s) == DropSpaces(s[1..])
  {
    var t := s[1..];
    var k := SkipSpaces(t, 0);
    SkipSpacesUnique(s, 0, k + 1);
  }

  /** Nothing is skipped before a character that is not whitespace. */
  lemma DropNoSpaces(s: string)
    requires |s| == 0 || !IsSpace(s[0])
    ensures DropSpaces(s) == s
  {
    SkipSpacesUnique(s, 0, 0);
  }

  /** `s.startswith(prefix)`. */
  predicate StartsWith(s: string, prefix: string) {
    |prefix| <= |s| && s[..|prefix|] == prefix
  }
}
