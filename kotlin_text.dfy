/**
 * The handful of Kotlin (JVM) `String` and `Char` operations that the SPDX
 * helpers rely on, written out over `string` = `seq<char>`.
 *
 * Case-insensitive comparison follows Java's `regionMatches(ignoreCase = true)`
 * and `equalsIgnoreCase`, restricted to ASCII letters: two characters match
 * when they are equal, or, ignoring case, when their ASCII upper-case forms
 * are equal.
 */
module KotlinText {

  /** `startsWith(prefix)` (case-sensitive). */
  predicate StartsWith(s: string, prefix: string)
    ensures StartsWith(s, prefix) <==> |prefix| <= |s| && s[..|prefix|] == prefix
  {
    prefix <= s
  }

  /** `endsWith(suffix)` (case-sensitive). */
  predicate EndsWith(s: string, suffix: string)
    ensures EndsWith(s, suffix) ==> |suffix| <= |s|
    ensures EndsWith(s, suffix) && suffix != [] ==> s[|s| - 1] == suffix[|suffix| - 1]
  {
    |suffix| <= |s| && s[|s| - |suffix|..] == suffix
  }

  /** `removePrefix(prefix)`: drops `prefix` when `s` starts with it, else returns `s`. */
  function RemovePrefix(s: string, prefix: string): (r: string)
    ensures StartsWith(s, prefix) ==> prefix + r == s
    ensures !StartsWith(s, prefix) ==> r == s
  {
    if StartsWith(s, prefix) then s[|prefix|..] else s
  }

  /** `removeSuffix(suffix)`: drops `suffix` when `s` ends with it, else returns `s`. */
  function RemoveSuffix(s: string, suffix: string): (r: string)
    ensures EndsWith(s, suffix) ==> r + suffix == s
    ensures !EndsWith(s, suffix) ==> r == s
  {
    if EndsWith(s, suffix) then s[..|s| - |suffix|] else s
  }

  /** `dropLast(n)`: all but the last `n` characters, or nothing when `n` exceeds the length. */
  function DropLast(s: string, n: nat): (r: string)
    ensures r <= s
    ensures |r| == if n <= |s| then |s| - n else 0
  {
    if n <= |s| then s[..|s| - n] else []
  }

  /**
   * Kotlin's `Char.isWhitespace()` on the JVM: Java's `Character.isWhitespace`
   * or `Character.isSpaceChar`, that is the controls TAB..CR and FS..US plus
   * the Unicode space, line and paragraph separators.
   */
  predicate IsWhitespace(c: char)
    ensures c == ' ' || c == '\t' || c == '\n' || c == '\r' ==> IsWhitespace(c)
    ensures '!' <= c <= '~' ==> !IsWhitespace(c)
  {
    ('\t' <= c <= '\r') || ('\U{001C}' <= c <= '\U{001F}') ||
    c == ' ' || c == '\U{00A0}' || c == '\U{1680}' ||
    ('\U{2000}' <= c <= '\U{200A}') ||
    c == '\U{2028}' || c == '\U{2029}' || c == '\U{202F}' || c == '\U{205F}' || c == '\U{3000}'
  }

  /** `isBlank()`: empty, or made only of whitespace. */
  predicate IsBlank(s: string)
    ensures s == [] ==> IsBlank(s)
  {
    forall i :: 0 <= i < |s| ==> IsWhitespace(s[i])
  }

  /** ASCII upper-case mapping; every other character is its own upper case. */
  function AsciiUpper(c: char): (u: char)
    ensures 'a' <= c <= 'z' ==> 'A' <= u <= 'Z' && u as int == c as int - 32
    ensures !('a' <= c <= 'z') ==> u == c
  {
    if 'a' <= c <= 'z' then (c as int - 32) as char else c
  }

  /** `Char.equals(other, ignoreCase)`. */
  predicate CharEquals(a: char, b: char, ignoreCase: bool)
    ensures !ignoreCase ==> (CharEquals(a, b, ignoreCase) <==> a == b)
  {
    a == b || (ignoreCase && AsciiUpper(a) == AsciiUpper(b))
  }

  /** `String.equals(other, ignoreCase)`: same length, and position-wise `CharEquals`. */
  predicate StringEquals(a: string, b: string, ignoreCase: bool)
    ensures StringEquals(a, b, ignoreCase) ==> |a| == |b|
    ensures a == b ==> StringEquals(a, b, ignoreCase)
  {
    |a| == |b| && forall i :: 0 <= i < |a| ==> CharEquals(a[i], b[i], ignoreCase)
  }

  /** `endsWith(suffix, ignoreCase)`: the last `|suffix|` characters are `StringEquals` to `suffix`. */
  predicate EndsWithCase(s: string, suffix: string, ignoreCase: bool)
    ensures EndsWithCase(s, suffix, ignoreCase) ==> |suffix| <= |s|
    ensures EndsWith(s, suffix) ==> EndsWithCase(s, suffix, ignoreCase)
  {
    |suffix| <= |s| && StringEquals(s[|s| - |suffix|..], suffix, ignoreCase)
  }

  /** Without `ignoreCase`, `StringEquals` is plain equality. */
  lemma StringEqualsCaseSensitive(a: string, b: string)
    ensures StringEquals(a, b, false) <==> a == b
  {
    if StringEquals(a, b, false) {
      assert forall i :: 0 <= i < |a| ==> a[i] == b[i];
    }
  }

  /** `StringEquals` is symmetric, so the argument order of `equals` does not matter. */
  lemma StringEqualsSymmetric(a: string, b: string, ignoreCase: bool)
    ensures StringEquals(a, b, ignoreCase) <==> StringEquals(b, a, ignoreCase)
  {
  }

  /** Without `ignoreCase`, `EndsWithCase` is the case-sensitive `EndsWith`. */
  lemma EndsWithCaseSensitive(s: string, suffix: string)
    ensures EndsWithCase(s, suffix, false) <==> EndsWith(s, suffix)
  {
    if |suffix| <= |s| {
      StringEqualsCaseSensitive(s[|s| - |suffix|..], suffix);
    }
  }

  /** A string holding a printable ASCII character is never blank. */
  lemma PrintableIsNotBlank(s: string, i: nat)
    requires i < |s| && '!' <= s[i] <= '~'
    ensures !IsBlank(s)
  {
  }

  /** `endsWith(suffix, ignoreCase)` compares the last `|suffix|` characters one by one. */
  lemma EndsWithCaseAt(s: string, suffix: string, ignoreCase: bool)
    ensures EndsWithCase(s, suffix, ignoreCase) <==>
      |suffix| <= |s| &&
      forall i :: 0 <= i < |suffix| ==> CharEquals(s[|s| - |suffix| + i], suffix[i], ignoreCase)
  {
    if |suffix| <= |s| {
      var tail := s[|s| - |suffix|..];
      assert forall i :: 0 <= i < |suffix| ==> tail[i] == s[|s| - |suffix| + i];
    }
  }

  /** `endsWith(suffix)` holds exactly when `s` is something followed by `suffix`. */
  lemma EndsWithSplit(s: string, suffix: string)
    ensures EndsWith(s, suffix) <==> |suffix| <= |s| && s == s[..|s| - |suffix|] + suffix
  {
  }

  /** Ignoring case, two characters match when equal or when they are the same ASCII letter in two cases. */
  lemma CharEqualsIgnoringCase(a: char, b: char)
    ensures CharEquals(a, b, true) <==>
      a == b ||
      ('a' <= a <= 'z' && b as int == a as int - 32) ||
      ('a' <= b <= 'z' && a as int == b as int - 32)
  {
  }
}
