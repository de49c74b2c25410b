/**
 * Character classes and literal tests used by the JavaScript regular expressions of the
 * sanitizers. A JavaScript string is modelled as a `seq<char>`.
 */
module Chars {
  import opened Wrappers

  /** `\w` of a JavaScript regex without the `u` flag: `[A-Za-z0-9_]`. */
  predicate IsWordChar(c: char) {
    'a' <= c <= 'z' || 'A' <= c <= 'Z' || '0' <= c <= '9' || c == '_'
  }

  /** `[a-z]` under the `i` flag: an ASCII letter of either case. */
  predicate IsAsciiLetter(c: char) {
    'a' <= c <= 'z' || 'A' <= c <= 'Z'
  }

  predicate IsQuote(c: char) {
    c == '"' || c == '\''
  }

  /**
   * `\s`: the ECMAScript WhiteSpace and LineTerminator code points
   * (tab, LF, VT, FF, CR, space, NBSP, U+1680, U+2000..U+200A, U+2028, U+2029,
   * U+202F, U+205F, U+3000, U+FEFF).
   */
  predicate IsJsWhitespace(c: char) {
    var n := c as int;
    (0x09 <= n <= 0x0D) || n == 0x20 || n == 0xA0 || n == 0x1680 ||
    (0x2000 <= n <= 0x200A) || n == 0x2028 || n == 0x2029 || n == 0x202F ||
    n == 0x205F || n == 0x3000 || n == 0xFEFF
  }

  /**
   * Canonicalisation under the `i` flag without the `u` flag, as far as the patterns here need
   * it: they compare only against ASCII text, and a character outside ASCII never canonicalises
   * to an ASCII one, so folding the ASCII letters gives the same comparisons. Non-ASCII letters
   * (`é` to `É`) also fold in JavaScript; that folding is not modelled.
   */
  function ToUpperAscii(c: char): (u: char)
    ensures IsAsciiLetter(c) <==> IsAsciiLetter(u)
    ensures 'a' <= c <= 'z' ==> 'A' <= u <= 'Z' && u as int == c as int - 32
    ensures !('a' <= c <= 'z') ==> u == c
  {
    if 'a' <= c <= 'z' then (c as int - 32) as char else c
  }

  predicate EqualsIgnoreCase(c: char, d: char) {
    ToUpperAscii(c) == ToUpperAscii(d)
  }

  /** The literal `lit` occurs in `s` at index `i`, compared exactly. */
  predicate StartsWithAt(s: string, i: nat, lit: string) {
    i + |lit| <= |s| && s[i..i + |lit|] == lit
  }

  /** The literal `lit` occurs in `s` at index `i`, compared under the `i` flag. */
  predicate StartsWithIgnoreCaseAt(s: string, i: nat, lit: string) {
    i + |lit| <= |s| && forall k :: 0 <= k < |lit| ==> EqualsIgnoreCase(s[i + k], lit[k])
  }

  /**
   * The first index at or after `from` holding a character of `cs`. This is where a greedy
   * `[^cs]*` that starts at `from` stops.
   */
  function FirstIndexIn(s: string, from: nat, cs: set<char>): (r: Option<nat>)
    requires from <= |s|
    ensures r.Some? ==> from <= r.value < |s| && s[r.value] in cs
    ensures r.Some? ==> forall k :: from <= k < r.value ==> s[k] !in cs
    ensures r.None? ==> forall k :: from <= k < |s| ==> s[k] !in cs
    decreases |s| - from
  {
    if from == |s| then None
    else if s[from] in cs then Some(from)
    else FirstIndexIn(s, from + 1, cs)
  }

  /** The first index at or after `from` that is not `\s`, or `|s|`: where a greedy `\s*` stops. */
  function SkipWhitespace(s: string, from: nat): (r: nat)
    requires from <= |s|
    ensures from <= r <= |s|
    ensures r < |s| ==> !IsJsWhitespace(s[r])
    ensures forall k :: from <= k < r ==> IsJsWhitespace(s[k])
    decreases |s| - from
  {
    if from == |s| || !IsJsWhitespace(s[from]) then from
    else SkipWhitespace(s, from + 1)
  }
}
