/**
 * `parseNumber` of the station-page scraper: pick the first run of the
 * characters `[0-9.,-]` out of a text, clean it (drop whitespace, turn
 * commas into dots, collapse runs of dots) and read the longest decimal
 * literal at its start, as `parseFloat` does.
 *
 * Numbers are exact decimals, not IEEE-754 doubles.
 */
module TextNormalizer {
  import opened Wrappers
  import opened JsText

  /** An exact decimal `-?whole.fraction`; `whole` and `fraction` are digit strings. */
  datatype Decimal = Decimal(negative: bool, whole: string, fraction: string)

  predicate IsDigit(c: char) {
    '0' <= c <= '9'
  }

  predicate AllDigits(t: string) {
    forall k | 0 <= k < |t| :: IsDigit(t[k])
  }

  /** The class `[\d.,-]` of parseNumber's pattern (no `u` flag: `\d` is ASCII). */
  predicate IsNumChar(c: char) {
    IsDigit(c) || c == '.' || c == ',' || c == '-'
  }

  /** A decimal whose two parts are digit strings and not both empty. */
  predicate WellFormed(d: Decimal) {
    AllDigits(d.whole) && AllDigits(d.fraction) && (|d.whole| > 0 || |d.fraction| > 0)
  }

  function DigitsValue(t: string): nat
    requires AllDigits(t)
  {
    if t == [] then 0 else 10 * DigitsValue(t[..|t| - 1]) + (t[|t| - 1] as int - '0' as int)
  }

  function Pow10(n: nat): (p: nat)
    ensures p > 0
  {
    if n == 0 then 1 else 10 * Pow10(n - 1)
  }

  /** The real number a decimal denotes. */
  function Value(d: Decimal): real
    requires WellFormed(d)
  {
    var magnitude := DigitsValue(d.whole) as real + DigitsValue(d.fraction) as real / Pow10(|d.fraction|) as real;
    if d.negative then -magnitude else magnitude
  }

  // ---------------------------------------------------------------------------
  // Step 1: `text.match(/[\d.,-]+/)`

  /** The first index at or after `i` that holds a class character, or `|s|`. */
  function SkipNonNumeric(s: string, i: nat): (j: nat)
    requires i <= |s|
    ensures i <= j <= |s|
    ensures forall k | i <= k < j :: !IsNumChar(s[k])
    ensures j < |s| ==> IsNumChar(s[j])
    decreases |s| - i
  {
    if i == |s| || IsNumChar(s[i]) then i else SkipNonNumeric(s, i + 1)
  }

  /** The end of the run of class characters that starts at `i`. */
  function NumericRunEnd(s: string, i: nat): (j: nat)
    requires i <= |s|
    ensures i <= j <= |s|
    ensures forall k | i <= k < j :: IsNumChar(s[k])
    ensures j < |s| ==> !IsNumChar(s[j])
    decreases |s| - i
  {
    if i == |s| || !IsNumChar(s[i]) then i else NumericRunEnd(s, i + 1)
  }

  /** The leftmost, greedy match of `[\d.,-]+`, or `None` when `text` has no class character. */
  function MatchNumeric(text: string): (r: Option<string>)
    ensures r.None? <==> forall k | 0 <= k < |text| :: !IsNumChar(text[k])
    ensures r.Some? ==> |r.value| > 0 && forall k | 0 <= k < |r.value| :: IsNumChar(r.value[k])
  {
    var i := SkipNonNumeric(text, 0);
    if i == |text| then None else Some(text[i..NumericRunEnd(text, i)])
  }

  /** The match is exactly the first maximal run of class characters. */
  lemma MatchNumericIsFirstRun(text: string, i: nat, j: nat)
    requires i < j <= |text|
    requires forall k | 0 <= k < i :: !IsNumChar(text[k])
    requires forall k | i <= k < j :: IsNumChar(text[k])
    requires j < |text| ==> !IsNumChar(text[j])
    ensures MatchNumeric(text) == Some(text[i..j])
  {
    var i' := SkipNonNumeric(text, 0);
    assert IsNumChar(text[i]);
    assert i' == i;
    var j' := NumericRunEnd(text, i);
    assert j' == j;
  }

  // ---------------------------------------------------------------------------
  // Step 2: `.replace(/\s+/g, '').replace(/,/g, '.').replace(/\.{2,}/g, '.')`

  /** `.replace(/\s+/g, '')`: every whitespace character removed, the rest kept in order. */
  function StripWhitespace(s: string): (r: string)
    ensures forall k | 0 <= k < |r| :: !IsSpace(r[k])
    ensures forall k | 0 <= k < |r| :: r[k] in s
    ensures |r| <= |s|
  {
    if s == [] then [] else if IsSpace(s[0]) then StripWhitespace(s[1..]) else [s[0]] + StripWhitespace(s[1..])
  }

  /**
   * The whitespace strip works character by character: on two texts it is
   * the strip of each, joined. With the one-character case (a space goes, any
   * other character stays), this says every non-whitespace character is kept,
   * in order.
   */
  lemma {:induction false} StripWhitespaceAppend(a: string, b: string)
    ensures StripWhitespace(a + b) == StripWhitespace(a) + StripWhitespace(b)
    ensures |a| == 1 ==> StripWhitespace(a) == if IsSpace(a[0]) then [] else a
  {
    if a == [] {
      assert a + b == b;
    } else {
      assert (a + b)[1..] == a[1..] + b;
      StripWhitespaceAppend(a[1..], b);
      if |a| == 1 {
        assert a[1..] == [];
      }
    }
  }

  /** `.replace(/,/g, '.')`. */
  function CommasToDots(s: string): (r: string)
    ensures |r| == |s|
    ensures forall k | 0 <= k < |s| :: r[k] == if s[k] == ',' then '.' else s[k]
  {
    if s == [] then [] else [if s[0] == ',' then '.' else s[0]] + CommasToDots(s[1..])
  }

  /** A string without commas is left as it is by the comma replacement. */
  lemma CommasToDotsFixes(s: string)
    requires ',' !in s
    ensures CommasToDots(s) == s
  {
  }

  /** No two adjacent dots. */
  predicate NoDoubleDot(s: string) {
    forall k | 0 <= k < |s| - 1 :: s[k] == '.' ==> s[k + 1] != '.'
  }

  /** The characters of `s` other than dots, in order. */
  function WithoutDots(s: string): string {
    if s == [] then [] else if s[0] == '.' then WithoutDots(s[1..]) else [s[0]] + WithoutDots(s[1..])
  }

  /** The suffix of `s` after its leading dots. */
  function DropLeadingDots(s: string): (r: string)
    ensures |r| <= |s|
    ensures s != [] && s[0] == '.' ==> |r| < |s|
    ensures r == [] || r[0] != '.'
    ensures ',' in r ==> ',' in s
  {
    if s != [] && s[0] == '.' then DropLeadingDots(s[1..]) else s
  }

  lemma {:induction false} DropLeadingDotsSuffix(s: string)
    ensures DropLeadingDots(s) == s[|s| - |DropLeadingDots(s)|..]
  {
    if s != [] && s[0] == '.' {
      DropLeadingDotsSuffix(s[1..]);
    }
  }

  /**
   * `.replace(/\.{2,}/g, '.')`: the scan replaces every maximal run of two or
   * more dots by one dot; a lone dot is left as it is. Either way each
   * maximal run of dots becomes one dot.
   */
  function CollapseDots(s: string): (r: string)
    ensures NoDoubleDot(r)
    ensures |r| <= |s|
    ensures r != [] ==> s != [] && (r[0] == '.' <==> s[0] == '.')
    ensures ',' in r ==> ',' in s
    decreases |s|
  {
    if s == [] then []
    else if s[0] == '.' then "." + CollapseDots(DropLeadingDots(s))
    else [s[0]] + CollapseDots(s[1..])
  }

  lemma {:induction false} DropLeadingDotsKeepsOthers(s: string)
    ensures WithoutDots(DropLeadingDots(s)) == WithoutDots(s)
  {
    if s != [] && s[0] == '.' {
      DropLeadingDotsKeepsOthers(s[1..]);
    }
  }

  /**
   * The dot collapse deletes dots and nothing else: the other characters
   * come out in the same order, and no character is new.
   */
  lemma {:induction false} CollapseDotsKeepsOthers(s: string)
    ensures WithoutDots(CollapseDots(s)) == WithoutDots(s)
    ensures forall c | c in CollapseDots(s) :: c == '.' || c in s
    decreases |s|
  {
    if s != [] {
      if s[0] == '.' {
        var t := DropLeadingDots(s);
        CollapseDotsKeepsOthers(t);
        DropLeadingDotsKeepsOthers(s);
        assert CollapseDots(s) == "." + CollapseDots(t);
        assert WithoutDots("." + CollapseDots(t)) == WithoutDots(CollapseDots(t));
        forall c | c in CollapseDots(s) ensures c == '.' || c in s {
          if c != '.' {
            assert c in CollapseDots(t);
            assert c in t;
            DropLeadingDotsSuffix(s);
          }
        }
      } else {
        CollapseDotsKeepsOthers(s[1..]);
        assert CollapseDots(s) == [s[0]] + CollapseDots(s[1..]);
        assert WithoutDots([s[0]] + CollapseDots(s[1..])) == [s[0]] + WithoutDots(CollapseDots(s[1..]));
        forall c | c in CollapseDots(s) ensures c == '.' || c in s {
          if c != s[0] {
            assert c in CollapseDots(s[1..]);
          }
        }
      }
    }
  }

  /** A dot in front of a text merges with the text's own leading run of dots. */
  lemma CollapseDotsDotPrefix(z: string)
    ensures CollapseDots("." + z) == if z != [] && z[0] == '.' then CollapseDots(z) else "." + CollapseDots(z)
  {
    assert ("." + z)[1..] == z;
    assert DropLeadingDots("." + z) == DropLeadingDots(z);
  }

  /**
   * Wherever two dots stand side by side, the collapse treats them as one.
   * With `CollapseDotsFixes` this determines the collapse: each maximal run
   * of dots becomes exactly one dot, in place.
   */
  lemma {:induction false} CollapseDotsDouble(x: string, y: string)
    ensures CollapseDots(x + ".." + y) == CollapseDots(x + "." + y)
    decreases |x|
  {
    if x == [] {
      assert x + ".." + y == "." + ("." + y);
      assert x + "." + y == "." + y;
      CollapseDotsDotPrefix("." + y);
    } else {
      var z1 := x[1..] + ".." + y;
      var z2 := x[1..] + "." + y;
      assert x + ".." + y == [x[0]] + z1;
      assert x + "." + y == [x[0]] + z2;
      CollapseDotsDouble(x[1..], y);
      if x[0] == '.' {
        assert z1[0] == z2[0];
        CollapseDotsDotPrefix(z1);
        CollapseDotsDotPrefix(z2);
      } else {
        assert ([x[0]] + z1)[1..] == z1;
        assert ([x[0]] + z2)[1..] == z2;
      }
    }
  }

  /** The three replacements of parseNumber, in order. */
  function Clean(m: string): (r: string)
    ensures ',' !in r
    ensures NoDoubleDot(r)
  {
    CollapseDots(CommasToDots(StripWhitespace(m)))
  }

  /** A match of `[\d.,-]+` cleans to a string over `[0-9.-]`. */
  lemma CleanAlphabet(m: string)
    requires forall k | 0 <= k < |m| :: IsNumChar(m[k])
    ensures forall k | 0 <= k < |Clean(m)| :: IsDigit(Clean(m)[k]) || Clean(m)[k] == '.' || Clean(m)[k] == '-'
  {
    var w := StripWhitespace(m);
    var s := CommasToDots(w);
    forall k | 0 <= k < |s| ensures IsDigit(s[k]) || s[k] == '.' || s[k] == '-' {
      assert w[k] in m;
    }
    CollapseDotsKeepsOthers(s);
    forall k | 0 <= k < |Clean(m)| ensures IsDigit(Clean(m)[k]) || Clean(m)[k] == '.' || Clean(m)[k] == '-' {
      assert Clean(m)[k] in CollapseDots(s);
    }
  }

  /** A match of `[\d.,-]+` holds no whitespace, so the first replacement leaves it unchanged. */
  lemma {:induction false} StripWhitespaceNoop(m: string)
    requires forall k | 0 <= k < |m| :: IsNumChar(m[k])
    ensures StripWhitespace(m) == m
  {
    if m != [] {
      assert !IsSpace(m[0]);
      StripWhitespaceNoop(m[1..]);
    }
  }

  /** A string with no double dot is left as it is by the dot collapse. */
  lemma {:induction false} CollapseDotsFixes(s: string)
    requires NoDoubleDot(s)
    ensures CollapseDots(s) == s
  {
    if s != [] {
      CollapseDotsFixes(s[1..]);
      if s[0] == '.' {
        assert |s| > 1 ==> s[1] != '.';
        assert DropLeadingDots(s) == s[1..];
      }
    }
  }

  /** Collapsing dots twice is collapsing them once. */
  lemma CollapseDotsIdempotent(s: string)
    ensures CollapseDots(CollapseDots(s)) == CollapseDots(s)
  {
    CollapseDotsFixes(CollapseDots(s));
  }

  // ---------------------------------------------------------------------------
  // Step 3: `parseFloat(cleanedText)` on the characters `[0-9.-]`

  /**
   * The decimal literals `parseFloat` reads, on this alphabet: an optional
   * `-`, then digits, digits `.` digits-or-nothing, or `.` digits.
   */
  ghost predicate IsDecimalLiteral(t: string) {
    if |t| > 0 && t[0] == '-' then IsUnsignedLiteral(t[1..]) else IsUnsignedLiteral(t)
  }

  ghost predicate IsUnsignedLiteral(t: string) {
    (|t| > 0 && AllDigits(t)) ||
    (|t| > 1 && exists k | 0 <= k < |t| :: DotAt(t, k))
  }

  /** `t` is digits, a dot at `k`, digits. */
  ghost predicate DotAt(t: string, k: int) {
    0 <= k < |t| && t[k] == '.' && AllDigits(t[..k]) && AllDigits(t[k + 1..])
  }

  /** The end of the run of digits that starts at `i`. */
  function DigitRunEnd(s: string, i: nat): (j: nat)
    requires i <= |s|
    ensures i <= j <= |s|
    ensures forall k | i <= k < j :: IsDigit(s[k])
    ensures j < |s| ==> !IsDigit(s[j])
    decreases |s| - i
  {
    if i == |s| || !IsDigit(s[i]) then i else DigitRunEnd(s, i + 1)
  }

  function SignLength(s: string): nat {
    if |s| > 0 && s[0] == '-' then 1 else 0
  }

  /**
   * Where the unsigned literal that starts at `a` ends: after the digits, a
   * dot and the digits after it; `a` itself when there is no digit.
   */
  function UnsignedEnd(s: string, a: nat): (e: nat)
    requires a <= |s|
    ensures a <= e <= |s|
  {
    var b := DigitRunEnd(s, a);
    if b < |s| && s[b] == '.' then
      var c := DigitRunEnd(s, b + 1);
      if b == a && c == b + 1 then a else c
    else b
  }

  /** The length of the decimal literal `parseFloat` reads at the start of `s`; 0 if none. */
  function LiteralLength(s: string): (n: nat)
    ensures n <= |s|
  {
    var a := SignLength(s);
    var e := UnsignedEnd(s, a);
    if e == a then 0 else e
  }

  /** `parseFloat`, with `None` for `NaN`. */
  function ParseFloat(s: string): (r: Option<Decimal>)
    ensures r.Some? ==> WellFormed(r.value)
  {
    var n := LiteralLength(s);
    if n == 0 then None
    else
      var a := SignLength(s);
      var b := DigitRunEnd(s, a);
      Some(Decimal(a == 1, s[a..b], if b < n then s[b + 1..n] else ""))
  }

  /** The text of a decimal: sign, whole part and, when there is one, the fraction after a dot. */
  function Text(d: Decimal): string {
    (if d.negative then "-" else "") + d.whole + (if d.fraction == [] then "" else "." + d.fraction)
  }

  lemma AllDigitsSlice(s: string, i: nat, j: nat)
    requires i <= j <= |s|
    ensures AllDigits(s[i..j]) <==> forall k | i <= k < j :: IsDigit(s[k])
  {
    if forall k | i <= k < j :: IsDigit(s[k]) {
    } else {
      var k :| i <= k < j && !IsDigit(s[k]);
      assert s[i..j][k - i] == s[k];
    }
  }

  /** The unsigned part of a literal prefix starts after the sign. */
  lemma SignSplit(s: string, m: nat)
    requires SignLength(s) <= m <= |s|
    ensures IsDecimalLiteral(s[..m]) <==> IsUnsignedLiteral(s[SignLength(s)..m])
  {
    var t := s[..m];
    var a := SignLength(s);
    if |t| > 0 && t[0] == '-' {
      assert t[1..] == s[a..m];
    } else {
      assert t == s[a..m];
    }
  }

  /** The end the scan finds closes an unsigned literal. */
  lemma UnsignedEndIsLiteral(s: string, a: nat)
    requires a <= |s| && a < UnsignedEnd(s, a)
    ensures IsUnsignedLiteral(s[a..UnsignedEnd(s, a)])
  {
    var e := UnsignedEnd(s, a);
    var b := DigitRunEnd(s, a);
    var u := s[a..e];
    if b < |s| && s[b] == '.' {
      AllDigitsSlice(s, a, b);
      AllDigitsSlice(s, b + 1, e);
      assert u[..b - a] == s[a..b];
      assert u[b - a + 1..] == s[b + 1..e];
      assert DotAt(u, b - a);
    } else {
      AllDigitsSlice(s, a, e);
    }
  }

  /** The length the scan finds is that of a decimal literal. */
  lemma LiteralLengthIsLiteral(s: string)
    requires LiteralLength(s) > 0
    ensures IsDecimalLiteral(s[..LiteralLength(s)])
  {
    UnsignedEndIsLiteral(s, SignLength(s));
    SignSplit(s, LiteralLength(s));
  }

  /** A run of digits from `i` to `j` lies inside the digit run the scan finds at `i`. */
  lemma {:induction false} DigitRunCovers(s: string, i: nat, j: nat)
    requires i <= j <= |s|
    requires forall k | i <= k < j :: IsDigit(s[k])
    ensures j <= DigitRunEnd(s, i)
    decreases j - i
  {
    if i < j {
      DigitRunCovers(s, i + 1, j);
    }
  }

  /** An all-digit literal from `a` ends no later than the scan's end. */
  lemma DigitsBounded(s: string, a: nat, m: nat)
    requires a < m <= |s| && AllDigits(s[a..m])
    ensures m <= UnsignedEnd(s, a)
  {
    AllDigitsSlice(s, a, m);
    DigitRunCovers(s, a, m);
  }

  /** A dotted literal from `a`, with its dot at `a + k`, ends no later than the scan's end. */
  lemma DottedBounded(s: string, a: nat, m: nat, k: nat)
    requires a + 1 < m <= |s| && DotAt(s[a..m], k)
    ensures m <= UnsignedEnd(s, a)
  {
    var u := s[a..m];
    assert u[..k] == s[a..a + k];
    AllDigitsSlice(s, a, a + k);
    DigitRunCovers(s, a, a + k);
    assert s[a + k] == u[k];
    var b := DigitRunEnd(s, a);
    assert b == a + k;
    assert u[k + 1..] == s[b + 1..m];
    AllDigitsSlice(s, b + 1, m);
    DigitRunCovers(s, b + 1, m);
  }

  /** Every unsigned literal from `a` ends no later than the scan's end. */
  lemma UnsignedBounded(s: string, a: nat, m: nat)
    requires a <= m <= |s| && IsUnsignedLiteral(s[a..m])
    ensures m <= UnsignedEnd(s, a)
  {
    var u := s[a..m];
    if |u| > 0 && AllDigits(u) {
      DigitsBounded(s, a, m);
    } else {
      var k :| 0 <= k < |u| && DotAt(u, k);
      DottedBounded(s, a, m, k);
    }
  }

  /** Every decimal literal at the start of `s` is at most as long as the one the scan finds. */
  lemma LiteralBounded(s: string, m: nat)
    requires m <= |s| && IsDecimalLiteral(s[..m])
    ensures m <= LiteralLength(s)
  {
    var a := SignLength(s);
    assert |s[..m]| > 0;
    SignSplit(s, m);
    UnsignedBounded(s, a, m);
    assert |s[a..m]| > 0;
  }

  /** No literal is longer than the one the scan finds. */
  lemma NoLongerLiteral(s: string, m: nat)
    requires LiteralLength(s) < m <= |s|
    ensures !IsDecimalLiteral(s[..m])
  {
    if IsDecimalLiteral(s[..m]) {
      LiteralBounded(s, m);
    }
  }

  /** `parseFloat` finds no number exactly when no prefix of `s` is a decimal literal. */
  lemma ParseFloatNone(s: string)
    ensures ParseFloat(s).None? <==> forall n | 0 <= n <= |s| :: !IsDecimalLiteral(s[..n])
  {
    if LiteralLength(s) > 0 {
      LiteralLengthIsLiteral(s);
    } else {
      forall n | 0 <= n <= |s| ensures !IsDecimalLiteral(s[..n]) {
        if n > 0 {
          NoLongerLiteral(s, n);
        } else {
          assert s[..n] == [];
        }
      }
    }
  }

  /**
   * `parseFloat` reads the LONGEST prefix of `s` that is a decimal literal:
   * given that prefix, the result's text is it (up to a trailing dot).
   */
  lemma ParseFloatLongestPrefix(s: string, n: nat)
    requires n <= |s| && IsDecimalLiteral(s[..n])
    requires forall m | n < m <= |s| :: !IsDecimalLiteral(s[..m])
    ensures ParseFloat(s).Some?
    ensures s[..n] == Text(ParseFloat(s).value) || s[..n] == Text(ParseFloat(s).value) + "."
  {
    LiteralLengthOfLongest(s, n);
    ParseFloatText(s);
  }

  /** The longest literal prefix is the one the scan finds. */
  lemma LiteralLengthOfLongest(s: string, n: nat)
    requires n <= |s| && IsDecimalLiteral(s[..n])
    requires forall m | n < m <= |s| :: !IsDecimalLiteral(s[..m])
    ensures LiteralLength(s) == n
  {
    LiteralBounded(s, n);
    if LiteralLength(s) > n {
      LiteralLengthIsLiteral(s);
    }
  }

  /** What `parseFloat` returns spells the literal it read, up to a trailing dot. */
  lemma ParseFloatText(s: string)
    requires LiteralLength(s) > 0
    ensures ParseFloat(s).Some?
    ensures s[..LiteralLength(s)] == Text(ParseFloat(s).value) || s[..LiteralLength(s)] == Text(ParseFloat(s).value) + "."
  {
    var n := LiteralLength(s);
    var a := SignLength(s);
    var b := DigitRunEnd(s, a);
    var d := ParseFloat(s).value;
    assert d.whole == s[a..b];
    assert d.fraction == if b < n then s[b + 1..n] else "";
    assert (if d.negative then "-" else "") == s[..a];
    assert b < n ==> s[b] == '.';
    Spell(s, a, b, n);
  }

  /** The three ways a literal's text splits into sign, whole part and fraction. */
  lemma Spell(s: string, a: nat, b: nat, n: nat)
    requires a <= b <= n <= |s|
    requires b < n ==> s[b] == '.'
    ensures b == n ==> s[..n] == s[..a] + s[a..b]
    ensures b + 1 == n ==> s[..n] == s[..a] + s[a..b] + "."
    ensures b + 1 < n ==> s[..n] == s[..a] + s[a..b] + ("." + s[b + 1..n])
  {
    assert s[..n] == s[..a] + s[a..b] + s[b..n];
    if b < n {
      assert s[b..n] == "." + s[b + 1..n];
    }
  }

  // ---------------------------------------------------------------------------
  // parseNumber

  /**
   * `parseNumber(text)`: `None` (JavaScript `null`) when the text has no class
   * character or when the cleaned match holds no decimal literal.
   */
  function ParseNumber(text: string): (r: Option<Decimal>)
    ensures (forall k | 0 <= k < |text| :: !IsNumChar(text[k])) ==> r.None?
    ensures r.Some? ==> WellFormed(r.value)
  {
    match MatchNumeric(text)
    case None => None
    case Some(m) => ParseFloat(Clean(m))
  }

  /** Only the first maximal run of class characters is read. */
  lemma ParseNumberReadsFirstRun(text: string, i: nat, j: nat)
    requires i < j <= |text|
    requires forall k | 0 <= k < i :: !IsNumChar(text[k])
    requires forall k | i <= k < j :: IsNumChar(text[k])
    requires j < |text| ==> !IsNumChar(text[j])
    ensures ParseNumber(text) == ParseFloat(Clean(text[i..j]))
    ensures Clean(text[i..j]) == CollapseDots(CommasToDots(text[i..j]))
  {
    MatchNumericIsFirstRun(text, i, j);
    StripWhitespaceNoop(text[i..j]);
  }

  /**
   * Whatever follows the first run is ignored: once `a` holds a class
   * character and `c` is not one, appending `c` and anything else to `a`
   * does not change the number.
   */
  lemma ParseNumberIgnoresRest(a: string, c: char, b: string, p: nat)
    requires p < |a| && IsNumChar(a[p])
    requires !IsNumChar(c)
    ensures ParseNumber(a + [c] + b) == ParseNumber(a)
  {
    var t := a + [c] + b;
    var i := SkipNonNumeric(a, 0);
    var j := NumericRunEnd(a, i);
    assert i < |a|;
    MatchNumericIsFirstRun(a, i, j);
    assert t[..|a|] == a;
    assert j < |t| ==> !IsNumChar(t[j]) by {
      if j < |a| { assert t[j] == a[j]; } else { assert t[j] == c; }
    }
    MatchNumericIsFirstRun(t, i, j);
    assert t[i..j] == a[i..j];
  }

  // ---------------------------------------------------------------------------
  // The source's own surprises, worked out

  /** How the examples below are worked: the run, its cleaning, and what parseFloat reads. */
  lemma ParseNumberReadsAs(t: string, i: nat, j: nat, c: string, d: Option<Decimal>)
    requires i < j <= |t|
    requires forall k | 0 <= k < i :: !IsNumChar(t[k])
    requires forall k | i <= k < j :: IsNumChar(t[k])
    requires j < |t| ==> !IsNumChar(t[j])
    requires CollapseDots(CommasToDots(t[i..j])) == c
    requires ParseFloat(c) == d
    ensures ParseNumber(t) == d
  {
    ParseNumberReadsFirstRun(t, i, j);
  }

  lemma CollapseExample()
    ensures CollapseDots("12..3") == "12.3"
  {
  }

  lemma ParseFloatExample()
    ensures ParseFloat("12.3") == Some(Decimal(false, "12", "3"))
  {
    var s := "12.3";
    assert DigitRunEnd(s, 0) == 2;
    assert DigitRunEnd(s, 3) == 4;
    assert s[0..2] == "12" && s[3..4] == "3";
  }

  lemma ValueExample()
    ensures Value(Decimal(false, "12", "3")) == 12.3
  {
    assert DigitsValue("12") == 12 by { assert "12"[..1] == "1"; assert "1"[..0] == ""; }
    assert DigitsValue("3") == 3 by { assert "3"[..0] == ""; }
    assert Pow10(1) == 10;
  }

  /** "12,,3" reads as 12.3: every comma becomes a dot before runs of dots collapse. */
  lemma ParseNumberCommaRun()
    ensures ParseNumber("12,,3") == Some(Decimal(false, "12", "3"))
    ensures Value(ParseNumber("12,,3").value) == 12.3
  {
    var t := "12,,3";
    assert t[0..5] == t;
    assert CommasToDots(t) == "12..3";
    CollapseExample();
    ParseFloatExample();
    ParseNumberReadsAs(t, 0, 5, "12.3", Some(Decimal(false, "12", "3")));
    ValueExample();
  }

  /** "12..3" reads as 12.3 as well. */
  lemma ParseNumberDotRun()
    ensures ParseNumber("12..3") == Some(Decimal(false, "12", "3"))
    ensures Value(ParseNumber("12..3").value) == 12.3
  {
    var t := "12..3";
    assert t[0..5] == t;
    assert CommasToDots(t) == t;
    CollapseExample();
    ParseFloatExample();
    ParseNumberReadsAs(t, 0, 5, "12.3", Some(Decimal(false, "12", "3")));
    ValueExample();
  }

  /**
   * The class has no space, so "1 234,5 m" reads as 1: the run "1" ends at
   * the space and the later runs are never looked at.
   */
  lemma ParseNumberStopsAtSpace()
    ensures ParseNumber("1 234,5 m") == Some(Decimal(false, "1", ""))
  {
    var t := "1 234,5 m";
    assert t[0..1] == "1";
    assert CommasToDots("1") == "1";
    assert CollapseDots("1") == "1";
    assert DigitRunEnd("1", 0) == 1;
    ParseNumberReadsAs(t, 0, 1, "1", Some(Decimal(false, "1", "")));
  }

  /** A lone minus sign holds no digit, so it reads as null. */
  lemma ParseNumberLoneMinus()
    ensures ParseNumber("-") == None
  {
    var t := "-";
    assert t[0..1] == t;
    assert CommasToDots(t) == t;
    assert CollapseDots(t) == t;
    assert DigitRunEnd(t, 1) == 1;
    ParseNumberReadsAs(t, 0, 1, t, None);
  }

  /** A minus inside the run ends the literal: "5-3" reads as 5. */
  lemma ParseNumberInnerMinus()
    ensures ParseNumber("5-3") == Some(Decimal(false, "5", ""))
  {
    var t := "5-3";
    assert t[0..3] == t;
    assert CommasToDots(t) == t;
    assert CollapseDots(t) == t;
    assert DigitRunEnd(t, 0) == 1;
    assert t[0..1] == "5";
    ParseNumberReadsAs(t, 0, 3, t, Some(Decimal(false, "5", "")));
  }

  /** A second dot ends the literal: "1.234.5" reads as 1.234. */
  lemma ParseNumberSecondDot()
    ensures ParseNumber("1.234.5") == Some(Decimal(false, "1", "234"))
  {
    ParseFloatSecondDot();
    ParseNumberOfClean("1.234.5");
  }

  /** A text made only of class characters, with no comma and no double dot, is read by `parseFloat` as it is. */
  lemma ParseNumberOfClean(t: string)
    requires t != [] && forall k | 0 <= k < |t| :: IsNumChar(t[k])
    requires ',' !in t && NoDoubleDot(t)
    ensures ParseNumber(t) == ParseFloat(t)
  {
    assert t[0..|t|] == t;
    ParseNumberReadsFirstRun(t, 0, |t|);
    CommasToDotsFixes(t);
    CollapseDotsFixes(t);
  }

  lemma ParseFloatSecondDot()
    ensures ParseFloat("1.234.5") == Some(Decimal(false, "1", "234"))
  {
    var t := "1.234.5";
    assert DigitRunEnd(t, 0) == 1;
    assert DigitRunEnd(t, 2) == 5;
    assert t[0..1] == "1" && t[2..5] == "234";
  }
}
