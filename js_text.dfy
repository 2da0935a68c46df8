/**
 * The few pieces of JavaScript's string library that the scraper leans on:
 * the whitespace class (what `\s` matches and what `trim` removes), `trim`,
 * `startsWith`, `includes` and `toLowerCase`.
 * Strings are sequences of Unicode scalar values, not UTF-16 code units.
 */
module JsText {

  /** ECMAScript WhiteSpace and LineTerminator: the set `\s` matches and `trim` strips. */
  predicate IsSpace(c: char) {
    c == '\t' || c == '\n' || c == '\U{000B}' || c == '\U{000C}' || c == '\r' || c == ' ' ||
    c == '\U{00A0}' || c == '\U{1680}' || ('\U{2000}' <= c <= '\U{200A}') ||
    c == '\U{2028}' || c == '\U{2029}' || c == '\U{202F}' || c == '\U{205F}' ||
    c == '\U{3000}' || c == '\U{FEFF}'
  }

  /** Drops the leading whitespace. */
  function TrimStart(s: string): (r: string)
    ensures |r| <= |s|
    ensures r == [] || !IsSpace(r[0])
  {
    if s == [] || !IsSpace(s[0]) then s else TrimStart(s[1..])
  }

  /** What `TrimStart` drops is a run of whitespace: the result is the suffix that starts at the first non-space. */
  lemma {:induction false} TrimStartDropsSpaces(s: string)
    ensures TrimStart(s) == s[|s| - |TrimStart(s)|..]
    ensures forall k | 0 <= k < |s| - |TrimStart(s)| :: IsSpace(s[k])
  {
    if s != [] && IsSpace(s[0]) {
      TrimStartDropsSpaces(s[1..]);
    }
  }

  /** Drops the trailing whitespace. */
  function TrimEnd(s: string): (r: string)
    ensures |r| <= |s|
    ensures r == [] || !IsSpace(r[|r| - 1])
  {
    if s == [] || !IsSpace(s[|s| - 1]) then s else TrimEnd(s[..|s| - 1])
  }

  /** What `TrimEnd` drops is a run of whitespace: the result is the prefix that ends at the last non-space. */
  lemma {:induction false} TrimEndDropsSpaces(s: string)
    ensures TrimEnd(s) == s[..|TrimEnd(s)|]
    ensures forall k | |TrimEnd(s)| <= k < |s| :: IsSpace(s[k])
  {
    if s != [] && IsSpace(s[|s| - 1]) {
      TrimEndDropsSpaces(s[..|s| - 1]);
    }
  }

  /** `String.prototype.trim`. */
  function Trim(s: string): (r: string)
    ensures |r| <= |s|
    ensures r == [] || !IsSpace(r[|r| - 1])
  {
    TrimEnd(TrimStart(s))
  }

  /** `trim` leaves whitespace at neither end. */
  lemma TrimHasNoOuterSpace(s: string)
    ensures Trim(s) == [] || (!IsSpace(Trim(s)[0]) && !IsSpace(Trim(s)[|Trim(s)| - 1]))
  {
    TrimEndDropsSpaces(TrimStart(s));
  }

  /** A string with no whitespace at either end is its own trim. */
  lemma TrimOfTrimmed(s: string)
    requires s == [] || (!IsSpace(s[0]) && !IsSpace(s[|s| - 1]))
    ensures Trim(s) == s
  {
  }

  /** Trimming twice is trimming once. */
  lemma TrimIdempotent(s: string)
    ensures Trim(Trim(s)) == Trim(s)
  {
    TrimHasNoOuterSpace(s);
    TrimOfTrimmed(Trim(s));
  }

  /** `s.startsWith(p)`. */
  predicate StartsWith(s: string, p: string) {
    |p| <= |s| && s[..|p|] == p
  }

  /** `s.includes(sub)` on strings: `sub` occurs at some position of `s`. */
  predicate Contains(s: string, sub: string) {
    exists i | 0 <= i <= |s| - |sub| :: OccursAt(s, sub, i)
  }

  /** `sub` is the slice of `s` that starts at `i`. */
  predicate OccursAt(s: string, sub: string, i: int) {
    0 <= i <= |s| - |sub| && s[i..i + |sub|] == sub
  }

  function LowerChar(c: char): char {
    if 'A' <= c <= 'Z' then (c as int + 32) as char else c
  }

  /**
   * `toLowerCase`, on the ASCII letters only. The only use of it tests for
   * the ASCII phrases of the operating status, and no other code point
   * lower-cases to an ASCII letter that such a phrase could use.
   */
  function LowerAscii(s: string): (r: string)
    ensures |r| == |s|
    ensures forall k | 0 <= k < |s| :: r[k] == LowerChar(s[k])
  {
    seq(|s|, k requires 0 <= k < |s| => LowerChar(s[k]))
  }

  /** `p` occurs somewhere in `s` when ASCII case is ignored. */
  predicate ContainsIgnoringCase(s: string, p: string) {
    exists i | 0 <= i <= |s| - |p| :: OccursIgnoringCaseAt(s, p, i)
  }

  /** The slice of `s` that starts at `i` is `p` once lower-cased. */
  predicate OccursIgnoringCaseAt(s: string, p: string, i: int) {
    0 <= i <= |s| - |p| && LowerAscii(s[i..i + |p|]) == p
  }

  /** Lower-casing commutes with taking a slice. */
  lemma LowerAsciiSlice(s: string, i: nat, j: nat)
    requires i <= j <= |s|
    ensures LowerAscii(s)[i..j] == LowerAscii(s[i..j])
  {
  }

  /** Searching the lower-cased text is searching the text with ASCII case ignored. */
  lemma ContainsLowerAscii(s: string, p: string)
    ensures Contains(LowerAscii(s), p) <==> ContainsIgnoringCase(s, p)
  {
    if Contains(LowerAscii(s), p) {
      var i :| 0 <= i <= |s| - |p| && OccursAt(LowerAscii(s), p, i);
      LowerAsciiSlice(s, i, i + |p|);
      assert OccursIgnoringCaseAt(s, p, i);
    }
    if ContainsIgnoringCase(s, p) {
      var i :| 0 <= i <= |s| - |p| && OccursIgnoringCaseAt(s, p, i);
      LowerAsciiSlice(s, i, i + |p|);
      assert OccursAt(LowerAscii(s), p, i);
    }
  }
}
