/**
 * `getStationUrls`: finding the station inventory in the map page's
 * scripts, turning its JavaScript object literals into JSON text, and
 * selecting and addressing the Swedish hydro plants in operation.
 *
 * The page's scripts arrive as their source texts; `JSON.parse` is a
 * parameter that either yields the parsed documents or fails.
 */
module Discovery {
  import opened Wrappers
  import opened JsText

  // ---------------------------------------------------------------------------
  // The regular expression /docs:\s*\[\s*(.*?)\s*\],\s*i18n:/s

  /** The end of the run of whitespace (`\s*`, taken greedily) that starts at `i`. */
  function SkipSpaces(s: string, i: nat): (j: nat)
    requires i <= |s|
    ensures i <= j <= |s|
    ensures j == |s| || !IsSpace(s[j])
    decreases |s| - i
  {
    if i < |s| && IsSpace(s[i]) then SkipSpaces(s, i + 1) else i
  }

  /** All that `\s*` skips is whitespace. */
  lemma {:induction false} SkipSpacesOverSpaces(s: string, i: nat)
    requires i <= |s|
    ensures forall k | i <= k < SkipSpaces(s, i) :: IsSpace(s[k])
    decreases |s| - i
  {
    if i < |s| && IsSpace(s[i]) {
      SkipSpacesOverSpaces(s, i + 1);
    }
  }

  /** The tail of the pattern, `\s*\],\s*i18n:`, matches at position `e`. */
  predicate ClosesAt(s: string, e: nat)
    requires e <= |s|
  {
    var j := SkipSpaces(s, e);
    OccursAt(s, "],", j) && OccursAt(s, "i18n:", SkipSpaces(s, j + 2))
  }

  /** The head of the pattern, `docs:\s*\[`, matches at position `p`. */
  predicate OpensAt(s: string, p: nat) {
    OccursAt(s, "docs:", p) && var q := SkipSpaces(s, p + 5); q < |s| && s[q] == '['
  }

  /** Where the capture starts: after the `[` and the whitespace that follows it. */
  function CaptureStart(s: string, p: nat): (c: nat)
    requires OpensAt(s, p)
    ensures p < c <= |s|
    ensures c == |s| || !IsSpace(s[c])
  {
    SkipSpaces(s, SkipSpaces(s, p + 5) + 1)
  }

  /**
   * The lazy `(.*?)`: the first position from `c` on where the tail matches.
   * The capture is as short as possible: no earlier position closes it, and
   * `None` means none at all does.
   */
  function FirstClose(s: string, c: nat): (r: Option<nat>)
    requires c <= |s|
    ensures r.Some? ==> c <= r.value <= |s| && ClosesAt(s, r.value)
    ensures r.Some? ==> forall e | c <= e < r.value :: !ClosesAt(s, e)
    ensures r.None? ==> forall e | c <= e <= |s| :: !ClosesAt(s, e)
    decreases |s| - c
  {
    if ClosesAt(s, c) then Some(c)
    else if c == |s| then None
    else FirstClose(s, c + 1)
  }

  /** The whole pattern matches starting at `p`. */
  predicate MatchesAt(s: string, p: nat) {
    OpensAt(s, p) && FirstClose(s, CaptureStart(s, p)).Some?
  }

  /**
   * `match` tries the positions from `p` on in turn and reports the leftmost
   * match: the pattern matches there, nothing matches before it, and `None`
   * means nothing matches at all.
   */
  function FirstMatch(s: string, p: nat): (r: Option<nat>)
    requires p <= |s|
    ensures r.Some? ==> p <= r.value <= |s| && MatchesAt(s, r.value)
    ensures r.Some? ==> forall q | p <= q < r.value :: !MatchesAt(s, q)
    ensures r.None? ==> forall q | p <= q <= |s| :: !MatchesAt(s, q)
    decreases |s| - p
  {
    if MatchesAt(s, p) then Some(p)
    else if p == |s| then None
    else FirstMatch(s, p + 1)
  }

  /** `scriptHtml.match(…)[1]`: the capture of the leftmost match, if the pattern matches. */
  function DocsCapture(s: string): (r: Option<string>)
    ensures r.None? <==> forall q | 0 <= q <= |s| :: !MatchesAt(s, q)
    ensures r.Some? ==> |r.value| <= |s|
  {
    match FirstMatch(s, 0)
    case None => None
    case Some(p) =>
      var c := CaptureStart(s, p);
      Some(s[c..FirstClose(s, c).value])
  }

  /** Whitespace before the tail belongs to the tail: the tail matching one step later matches here too. */
  lemma ClosesThroughSpace(s: string, e: nat)
    requires e < |s|
    ensures IsSpace(s[e]) ==> ClosesAt(s, e) == ClosesAt(s, e + 1)
  {
    if IsSpace(s[e]) {
      assert SkipSpaces(s, e) == SkipSpaces(s, e + 1);
    }
  }

  /** The lazy capture never ends in whitespace: it would have stopped one character earlier. */
  lemma FirstCloseAfterNonSpace(s: string, c: nat)
    requires c <= |s| && FirstClose(s, c).Some?
    ensures var e := FirstClose(s, c).value; e == c || !IsSpace(s[e - 1])
  {
    var e := FirstClose(s, c).value;
    if e > c {
      ClosesThroughSpace(s, e - 1);
    }
  }

  /** The capture neither starts nor ends with whitespace, so the `trim` after it changes nothing. */
  lemma CaptureIsTrimmed(s: string)
    requires DocsCapture(s).Some?
    ensures Trim(DocsCapture(s).value) == DocsCapture(s).value
  {
    var p := FirstMatch(s, 0).value;
    var c := CaptureStart(s, p);
    var e := FirstClose(s, c).value;
    FirstCloseAfterNonSpace(s, c);
    assert DocsCapture(s).value == s[c..e];
    SliceTrimmed(s, c, e);
  }

  /** A slice that starts and ends with a non-space is its own trim. */
  lemma SliceTrimmed(s: string, c: nat, e: nat)
    requires c <= e <= |s|
    requires c < e ==> !IsSpace(s[c]) && !IsSpace(s[e - 1])
    ensures Trim(s[c..e]) == s[c..e]
  {
    var m := s[c..e];
    assert m == [] || (m[0] == s[c] && m[|m| - 1] == s[e - 1]);
    TrimOfTrimmed(m);
  }

  /** What one script contributes: its capture, when it passes the `includes('docs: [')` test and the pattern matches. */
  function ScriptCapture(script: string): Option<string> {
    if Contains(script, "docs: [") then DocsCapture(script) else None
  }

  /** The captures of the scripts, script by script. */
  function Captures(scripts: seq<string>): (r: seq<Option<string>>)
    ensures |r| == |scripts|
    ensures forall i | 0 <= i < |scripts| :: r[i] == ScriptCapture(scripts[i])
  {
    if scripts == [] then [] else Captures(scripts[..|scripts| - 1]) + [ScriptCapture(scripts[|scripts| - 1])]
  }

  /** The last capture there is, trimmed. */
  function LastTrimmed(captures: seq<Option<string>>): Option<string> {
    if captures == [] then None
    else match captures[|captures| - 1]
      case Some(m) => Some(Trim(m))
      case None => LastTrimmed(captures[..|captures| - 1])
  }

  /** `docsContent` after the scripts: the trimmed capture of the last script that yields one. */
  function LastCapture(scripts: seq<string>): (r: Option<string>)
    ensures r.None? <==> forall j | 0 <= j < |scripts| :: ScriptCapture(scripts[j]).None?
  {
    LastTrimmedNone(Captures(scripts));
    LastTrimmed(Captures(scripts))
  }

  /** One more script overwrites `docsContent` when it yields a capture. */
  lemma LastCaptureStep(scripts: seq<string>, script: string)
    ensures LastCapture(scripts + [script]) ==
              if ScriptCapture(script).Some? then Some(Trim(ScriptCapture(script).value)) else LastCapture(scripts)
  {
    assert (scripts + [script])[..|scripts|] == scripts;
  }

  /** The `scriptTags.each` loop: every script that yields a capture overwrites `docsContent`. */
  method FindDocsContent(scripts: seq<string>) returns (docsContent: Option<string>)
    ensures docsContent == LastCapture(scripts)
  {
    docsContent := None;
    var i := 0;
    while i < |scripts|
      invariant 0 <= i <= |scripts|
      invariant docsContent == LastCapture(scripts[..i])
    {
      var scriptHtml := scripts[i];
      if Contains(scriptHtml, "docs: [") {
        var docsMatch := DocsCapture(scriptHtml);
        if docsMatch.Some? {
          docsContent := Some(Trim(docsMatch.value));
        }
      }
      LastCaptureStep(scripts[..i], scripts[i]);
      assert scripts[..i + 1] == scripts[..i] + [scripts[i]];
      i := i + 1;
    }
    assert scripts[..i] == scripts;
  }

  lemma {:induction false} LastTrimmedWins(captures: seq<Option<string>>, i: nat)
    requires i < |captures| && captures[i].Some?
    requires forall j | i < j < |captures| :: captures[j].None?
    ensures LastTrimmed(captures) == Some(Trim(captures[i].value))
  {
    var n := |captures| - 1;
    if i < n {
      assert captures[n].None?;
      LastTrimmedWins(captures[..n], i);
    }
  }

  lemma {:induction false} LastTrimmedNone(captures: seq<Option<string>>)
    ensures LastTrimmed(captures).None? <==> forall j | 0 <= j < |captures| :: captures[j].None?
  {
    if captures != [] {
      var n := |captures| - 1;
      LastTrimmedNone(captures[..n]);
      assert forall j | 0 <= j < n :: captures[..n][j] == captures[j];
    }
  }

  /** The last script that yields a capture decides `docsContent`. */
  lemma LastCaptureWins(scripts: seq<string>, i: nat)
    requires i < |scripts| && ScriptCapture(scripts[i]).Some?
    requires forall j | i < j < |scripts| :: ScriptCapture(scripts[j]).None?
    ensures LastCapture(scripts) == Some(Trim(ScriptCapture(scripts[i]).value))
  {
    LastTrimmedWins(Captures(scripts), i);
  }

  // ---------------------------------------------------------------------------
  // Normalising the blob to JSON text

  /** `\w`: an ASCII letter, digit or underscore. */
  predicate IsWordChar(c: char) {
    'A' <= c <= 'Z' || 'a' <= c <= 'z' || '0' <= c <= '9' || c == '_'
  }

  predicate AllWord(w: string) {
    forall k | 0 <= k < |w| :: IsWordChar(w[k])
  }

  /** The length of the run of word characters at the front of `s` (`\w+`, taken greedily). */
  function WordPrefix(s: string): (n: nat)
    ensures n <= |s| && AllWord(s[..n])
    ensures n == |s| || !IsWordChar(s[n])
  {
    if s != [] && IsWordChar(s[0]) then
      assert forall k | 1 <= k < 1 + WordPrefix(s[1..]) :: s[k] == s[1..][k - 1];
      1 + WordPrefix(s[1..])
    else 0
  }

  /** A run of word characters followed by a non-word character or the end is the whole front run. */
  lemma {:induction false} WordPrefixOf(w: string, t: string)
    requires AllWord(w)
    requires t == [] || !IsWordChar(t[0])
    ensures WordPrefix(w + t) == |w|
  {
    if w != [] {
      assert (w + t)[1..] == w[1..] + t;
      WordPrefixOf(w[1..], t);
    }
  }

  /**
   * `.replace(/(\w+):/g, '"$1":')`: every maximal run of word characters
   * that is immediately followed by `:` is wrapped in double quotes; the
   * scan resumes after the colon.
   */
  function QuoteKeys(s: string): (r: string)
    ensures |s| <= |r|
    ensures s != [] && !IsWordChar(s[0]) ==> r[0] == s[0]
    decreases |s|
  {
    if s == [] then []
    else if !IsWordChar(s[0]) then [s[0]] + QuoteKeys(s[1..])
    else
      var j := WordPrefix(s);
      if j < |s| && s[j] == ':' then "\"" + s[..j] + "\":" + QuoteKeys(s[j + 1..])
      else s[..j] + QuoteKeys(s[j..])
  }

  /** A character outside `\w` is copied as it is. */
  lemma QuoteKeysNonWord(c: char, t: string)
    requires !IsWordChar(c)
    ensures QuoteKeys([c] + t) == [c] + QuoteKeys(t)
  {
    assert ([c] + t)[1..] == t;
  }

  /** A key, a run of word characters followed by a colon, is quoted. */
  lemma QuoteKeysKey(w: string, t: string)
    requires w != [] && AllWord(w)
    ensures QuoteKeys(w + ":" + t) == "\"" + w + "\":" + QuoteKeys(t)
  {
    var s := w + ":" + t;
    assert WordPrefix(s) == |w| && s[|w|] == ':' && s[..|w|] == w && s[|w| + 1..] == t by {
      WordPrefixOf(w, ":" + t);
      assert s == w + (":" + t);
    }
  }

  /** A run of word characters followed by another non-word character is copied as it is. */
  lemma QuoteKeysWord(w: string, c: char, t: string)
    requires w != [] && AllWord(w) && !IsWordChar(c) && c != ':'
    ensures QuoteKeys(w + [c] + t) == w + [c] + QuoteKeys(t)
  {
    var s := w + [c] + t;
    assert IsWordChar(s[0]) && WordPrefix(s) == |w| && s[|w|] == c && s[..|w|] == w && s[|w|..] == [c] + t by {
      WordPrefixOf(w, [c] + t);
      assert s == w + ([c] + t);
      assert s[0] == w[0];
    }
    calc {
      QuoteKeys(s);
      s[..|w|] + QuoteKeys(s[|w|..]);
      w + QuoteKeys([c] + t);
      { QuoteKeysNonWord(c, t); }
      w + ([c] + QuoteKeys(t));
      w + [c] + QuoteKeys(t);
    }
  }

  /** A run of word characters that ends the text is copied as it is. */
  lemma QuoteKeysWordAtEnd(w: string)
    requires w != [] && AllWord(w)
    ensures QuoteKeys(w) == w
  {
    WordPrefixOf(w, []);
    assert w + [] == w;
  }

  /** Text without a colon has no keys to quote. */
  lemma {:induction false} QuoteKeysNoColon(s: string)
    requires ':' !in s
    ensures QuoteKeys(s) == s
    decreases |s|
  {
    if s == [] {
    } else if !IsWordChar(s[0]) {
      assert s == [s[0]] + s[1..];
      QuoteKeysNonWord(s[0], s[1..]);
      QuoteKeysNoColon(s[1..]);
    } else {
      var j := WordPrefix(s);
      var w := s[..j];
      if j == |s| {
        assert s == w;
        QuoteKeysWordAtEnd(w);
      } else {
        var rest := s[j + 1..];
        assert s == w + [s[j]] + rest;
        assert s[j] in s;
        QuoteKeysWord(w, s[j], rest);
        QuoteKeysNoColon(rest);
      }
    }
  }

  /** An already quoted key, `"w":`, is copied as it is. */
  lemma QuoteKeysQuotedKey(w: string, q: string)
    requires w != [] && AllWord(w)
    ensures QuoteKeys("\"" + w + "\":" + q) == "\"" + w + "\":" + QuoteKeys(q)
  {
    var x := w + ['"'] + (":" + q);
    QuotedKeyShape(w, q);
    QuoteKeysNonWord('"', x);
    QuoteKeysWord(w, '"', ":" + q);
    QuoteKeysNonWord(':', q);
    QuotedKeyShape(w, QuoteKeys(q));
  }

  /** `"w":q` regrouped as the quote, then `w`, the quote and `:q`. */
  lemma QuotedKeyShape(w: string, q: string)
    ensures "\"" + w + "\":" + q == ['"'] + (w + ['"'] + (":" + q))
  {
  }

  /** The key case of idempotence: `"w":` is copied on the second pass. */
  lemma QuoteKeysTwiceKey(w: string, t: string)
    requires w != [] && AllWord(w)
    requires QuoteKeys(QuoteKeys(t)) == QuoteKeys(t)
    ensures QuoteKeys(QuoteKeys(w + ":" + t)) == QuoteKeys(w + ":" + t)
  {
    QuoteKeysKey(w, t);
    QuoteKeysQuotedKey(w, QuoteKeys(t));
  }

  /** The non-word case of idempotence. */
  lemma QuoteKeysTwiceNonWord(c: char, t: string)
    requires !IsWordChar(c)
    requires QuoteKeys(QuoteKeys(t)) == QuoteKeys(t)
    ensures QuoteKeys(QuoteKeys([c] + t)) == QuoteKeys([c] + t)
  {
    QuoteKeysNonWord(c, t);
    QuoteKeysNonWord(c, QuoteKeys(t));
  }

  /** The copied-run case of idempotence. */
  lemma QuoteKeysTwiceWord(w: string, c: char, t: string)
    requires w != [] && AllWord(w) && !IsWordChar(c) && c != ':'
    requires QuoteKeys(QuoteKeys(t)) == QuoteKeys(t)
    ensures QuoteKeys(QuoteKeys(w + [c] + t)) == QuoteKeys(w + [c] + t)
  {
    QuoteKeysWord(w, c, t);
    QuoteKeysWord(w, c, QuoteKeys(t));
  }

  /** Quoting keys twice is quoting them once: a quoted key is followed by `"`, not by `:`. */
  lemma {:induction false} QuoteKeysIdempotent(s: string)
    ensures QuoteKeys(QuoteKeys(s)) == QuoteKeys(s)
    decreases |s|
  {
    if s == [] {
    } else if !IsWordChar(s[0]) {
      QuoteKeysIdempotent(s[1..]);
      assert s == [s[0]] + s[1..];
      QuoteKeysTwiceNonWord(s[0], s[1..]);
    } else {
      var j := WordPrefix(s);
      var w := s[..j];
      if j == |s| {
        assert s == w;
        QuoteKeysWordAtEnd(w);
      } else {
        var rest := s[j + 1..];
        QuoteKeysIdempotent(rest);
        SplitAround(s, j);
        if s[j] == ':' {
          assert [s[j]] == ":";
          QuoteKeysTwiceKey(w, rest);
        } else {
          QuoteKeysTwiceWord(w, s[j], rest);
        }
      }
    }
  }

  /** A text is what comes before position `j`, the character there, and what follows. */
  lemma SplitAround(s: string, j: nat)
    requires j < |s|
    ensures s == s[..j] + [s[j]] + s[j + 1..]
  {
  }

  /** The characters of `s` other than double quotes, in order. */
  function WithoutDoubleQuotes(s: string): string {
    if s == [] then [] else (if s[0] == '"' then [] else [s[0]]) + WithoutDoubleQuotes(s[1..])
  }

  lemma {:induction false} WithoutDoubleQuotesAppend(a: string, b: string)
    ensures WithoutDoubleQuotes(a + b) == WithoutDoubleQuotes(a) + WithoutDoubleQuotes(b)
  {
    if a == [] {
      assert a + b == b;
    } else {
      assert (a + b)[1..] == a[1..] + b;
      WithoutDoubleQuotesAppend(a[1..], b);
    }
  }

  lemma {:induction false} WordHasNoDoubleQuote(w: string)
    requires AllWord(w)
    ensures WithoutDoubleQuotes(w) == w
  {
    if w != [] {
      WordHasNoDoubleQuote(w[1..]);
    }
  }

  /** Taking the quotes out of a quoted key leaves the key and its colon. */
  lemma WithoutDoubleQuotesQuotedKey(w: string, q: string)
    requires AllWord(w)
    ensures WithoutDoubleQuotes("\"" + w + "\":" + q) == w + ":" + WithoutDoubleQuotes(q)
  {
    WordHasNoDoubleQuote(w);
    assert "\"" + w + "\":" + q == "\"" + (w + ("\":" + q));
    WithoutDoubleQuotesAppend("\":", q);
    WithoutDoubleQuotesAppend(w, "\":" + q);
    WithoutDoubleQuotesAppend("\"", w + ("\":" + q));
  }

  /** Taking the quotes out of a bare key leaves it and its colon. */
  lemma WithoutDoubleQuotesBareKey(w: string, rest: string)
    requires AllWord(w)
    ensures WithoutDoubleQuotes(w + ":" + rest) == w + ":" + WithoutDoubleQuotes(rest)
  {
    WordHasNoDoubleQuote(w);
    assert w + ":" + rest == w + (":" + rest);
    WithoutDoubleQuotesAppend(":", rest);
    WithoutDoubleQuotesAppend(w, ":" + rest);
  }

  /** The key case: `w:` becomes `"w":`, which loses its two new quotes again. */
  lemma QuoteKeysOnlyAddsQuotesKey(w: string, rest: string)
    requires w != [] && AllWord(w)
    requires WithoutDoubleQuotes(QuoteKeys(rest)) == WithoutDoubleQuotes(rest)
    ensures WithoutDoubleQuotes(QuoteKeys(w + ":" + rest)) == WithoutDoubleQuotes(w + ":" + rest)
  {
    QuoteKeysKey(w, rest);
    WithoutDoubleQuotesQuotedKey(w, QuoteKeys(rest));
    WithoutDoubleQuotesBareKey(w, rest);
  }

  /** The copied-run case: `w` and the character after it are copied. */
  lemma QuoteKeysOnlyAddsQuotesWord(w: string, c: char, rest: string)
    requires w != [] && AllWord(w) && !IsWordChar(c) && c != ':'
    requires WithoutDoubleQuotes(QuoteKeys(rest)) == WithoutDoubleQuotes(rest)
    ensures WithoutDoubleQuotes(QuoteKeys(w + [c] + rest)) == WithoutDoubleQuotes(w + [c] + rest)
  {
    QuoteKeysWord(w, c, rest);
    WithoutDoubleQuotesAfterWord(w, c, QuoteKeys(rest));
    WithoutDoubleQuotesAfterWord(w, c, rest);
  }

  /** Taking the quotes out of a word run, a character and a tail. */
  lemma WithoutDoubleQuotesAfterWord(w: string, c: char, x: string)
    requires AllWord(w)
    ensures WithoutDoubleQuotes(w + [c] + x) == w + WithoutDoubleQuotes([c]) + WithoutDoubleQuotes(x)
  {
    WordHasNoDoubleQuote(w);
    assert w + [c] + x == w + ([c] + x);
    WithoutDoubleQuotesAppend([c], x);
    WithoutDoubleQuotesAppend(w, [c] + x);
  }

  /**
   * Key quoting inserts double quotes and nothing else: with the double
   * quotes taken out, its output is its input.
   */
  lemma {:induction false} QuoteKeysOnlyAddsQuotes(s: string)
    ensures WithoutDoubleQuotes(QuoteKeys(s)) == WithoutDoubleQuotes(s)
    decreases |s|
  {
    if s == [] {
    } else if !IsWordChar(s[0]) {
      assert s == [s[0]] + s[1..];
      QuoteKeysNonWord(s[0], s[1..]);
      QuoteKeysOnlyAddsQuotes(s[1..]);
      WithoutDoubleQuotesAppend([s[0]], QuoteKeys(s[1..]));
      WithoutDoubleQuotesAppend([s[0]], s[1..]);
    } else {
      var j := WordPrefix(s);
      var w := s[..j];
      if j == |s| {
        assert s == w;
        QuoteKeysWordAtEnd(w);
      } else {
        var rest := s[j + 1..];
        QuoteKeysOnlyAddsQuotes(rest);
        if s[j] == ':' {
          assert s == w + ":" + rest;
          QuoteKeysOnlyAddsQuotesKey(w, rest);
        } else {
          assert s == w + [s[j]] + rest;
          QuoteKeysOnlyAddsQuotesWord(w, s[j], rest);
        }
      }
    }
  }

  /** `.replace(/'/g, '"')`: every single quote becomes a double quote. */
  function SwapQuotes(s: string): (r: string)
    ensures |r| == |s|
    ensures forall k | 0 <= k < |s| :: r[k] == (if s[k] == '\'' then '"' else s[k])
  {
    seq(|s|, k requires 0 <= k < |s| => if s[k] == '\'' then '"' else s[k])
  }

  /** No single quote survives the swap. */
  lemma SwapQuotesLeavesNone(s: string)
    ensures '\'' !in SwapQuotes(s)
  {
    var r := SwapQuotes(s);
    assert forall k | 0 <= k < |r| :: r[k] != '\'';
  }

  /** The array wrap `[${docsContent}]`. */
  function Wrap(s: string): (r: string)
    ensures |r| == |s| + 2 && r[0] == '[' && r[|r| - 1] == ']' && r[1..|r| - 1] == s
  {
    "[" + s + "]"
  }

  /** The three successive reassignments of `docsContent` before `JSON.parse`. */
  function Normalise(docsContent: string): (r: string)
    ensures |r| >= 2
    ensures r[0] == '[' && r[|r| - 1] == ']'
    ensures r[1..|r| - 1] == SwapQuotes(QuoteKeys(docsContent))
  {
    Wrap(SwapQuotes(QuoteKeys(docsContent)))
  }

  /** The text handed to `JSON.parse` holds no single quote. */
  lemma NormaliseLeavesNoSingleQuote(docsContent: string)
    ensures '\'' !in Normalise(docsContent)
  {
    var r := Normalise(docsContent);
    var mid := SwapQuotes(QuoteKeys(docsContent));
    SwapQuotesLeavesNone(QuoteKeys(docsContent));
    assert r == "[" + mid + "]";
  }

  // ---------------------------------------------------------------------------
  // Filtering and projecting the parsed documents

  /**
   * A tag field of a parsed document, as `.includes` sees it: an array
   * (membership), a string (substring), or anything without an `includes`
   * method (missing, `null`, a number, an object), on which the call throws.
   */
  datatype TagField = NoIncludes | TagList(tags: seq<string>) | TagText(text: string)

  /** `field.includes(x)`, for a field that has the method. */
  predicate Includes(field: TagField, x: string)
    requires !field.NoIncludes?
  {
    match field
    case TagList(tags) => x in tags
    case TagText(text) => Contains(text, x)
  }

  /** The fields of one parsed document that the selection and the projection read. */
  datatype Doc = Doc(status: TagField, countries: TagField, types: TagField, title: string, sourcePath: string)

  /** A document is wanted: in operation, in Sweden, hydro. */
  predicate Wanted(doc: Doc) {
    && !doc.status.NoIncludes? && Includes(doc.status, "inoperation")
    && !doc.countries.NoIncludes? && Includes(doc.countries, "Sweden")
    && !doc.types.NoIncludes? && Includes(doc.types, "Hydro")
  }

  /** What the filter callback does with one document. */
  datatype Verdict = Keep | Drop | Throw

  /** The filter callback: three `includes` tests joined by `&&`, which stops at the first false one. */
  function Judge(doc: Doc): (v: Verdict)
    ensures v == Keep <==> Wanted(doc)
    ensures v == Throw <==>
              || doc.status.NoIncludes?
              || (Includes(doc.status, "inoperation") &&
                  (doc.countries.NoIncludes? || (Includes(doc.countries, "Sweden") && doc.types.NoIncludes?)))
    ensures v == Drop ==>
              (!doc.status.NoIncludes? && !Includes(doc.status, "inoperation")) ||
              (!doc.countries.NoIncludes? && !Includes(doc.countries, "Sweden")) ||
              (!doc.types.NoIncludes? && !Includes(doc.types, "Hydro"))
  {
    if doc.status.NoIncludes? then Throw
    else if !Includes(doc.status, "inoperation") then Drop
    else if doc.countries.NoIncludes? then Throw
    else if !Includes(doc.countries, "Sweden") then Drop
    else if doc.types.NoIncludes? then Throw
    else if !Includes(doc.types, "Hydro") then Drop
    else Keep
  }

  /** A field without `includes` only throws when the test before it passed. */
  lemma JudgeShortCircuits(doc: Doc)
    requires !doc.status.NoIncludes? && !Includes(doc.status, "inoperation")
    ensures Judge(doc) == Drop
  {
  }

  /** `docsArray.filter(…)`: the wanted documents in order, or `None` when a callback throws. */
  function FilterDocs(docs: seq<Doc>): (r: Option<seq<Doc>>)
    ensures r.Some? ==> |r.value| == CountWanted(docs)
    ensures r.Some? ==> forall k | 0 <= k < |r.value| :: Wanted(r.value[k])
  {
    if docs == [] then Some([])
    else
      var v := Judge(docs[0]);
      if v == Throw then None
      else match FilterDocs(docs[1..])
        case None => None
        case Some(rest) => Some(if v == Keep then [docs[0]] + rest else rest)
  }

  /** The number of positions of `docs` that hold a wanted document. */
  function CountWanted(docs: seq<Doc>): (n: nat)
    ensures n <= |docs|
  {
    if docs == [] then 0 else (if Wanted(docs[0]) then 1 else 0) + CountWanted(docs[1..])
  }

  /** `a` is `b` with some elements left out, in the same order. */
  predicate Subsequence<T(==)>(a: seq<T>, b: seq<T>) {
    a == [] || (b != [] && ((a[0] == b[0] && Subsequence(a[1..], b[1..])) || Subsequence(a, b[1..])))
  }

  /** The filter throws exactly when one of the callbacks does. */
  lemma {:induction false} FilterThrowsIff(docs: seq<Doc>)
    ensures FilterDocs(docs).None? <==> exists i | 0 <= i < |docs| :: Judge(docs[i]) == Throw
  {
    if docs != [] {
      FilterThrowsIff(docs[1..]);
      if Judge(docs[0]) != Throw && FilterDocs(docs[1..]).None? {
        var i :| 0 <= i < |docs[1..]| && Judge(docs[1..][i]) == Throw;
        assert Judge(docs[i + 1]) == Throw;
      }
      if FilterDocs(docs).Some? {
        forall i | 0 <= i < |docs| ensures Judge(docs[i]) != Throw {
          if i > 0 {
            assert docs[i] == docs[1..][i - 1];
          }
        }
      }
    }
  }

  /**
   * What the filter returns keeps the order of the input, holds only wanted
   * documents, and holds one entry per position of a wanted document: so it
   * is exactly the wanted documents, duplicates included.
   */
  lemma {:induction false} FilterSelectsWanted(docs: seq<Doc>)
    requires FilterDocs(docs).Some?
    ensures Subsequence(FilterDocs(docs).value, docs)
    ensures |FilterDocs(docs).value| == CountWanted(docs)
    ensures forall d :: d in FilterDocs(docs).value <==> d in docs && Wanted(d)
  {
    if docs != [] {
      FilterSelectsWanted(docs[1..]);
      var rest := FilterDocs(docs[1..]).value;
      assert docs == [docs[0]] + docs[1..];
      if Judge(docs[0]) == Keep {
        assert ([docs[0]] + rest)[1..] == rest;
      } else {
        assert Subsequence(rest, docs[1..]);
        if rest != [] {
          assert Subsequence(rest, docs);
        }
      }
    }
  }

  /** The base of every station address. */
  const BaseUrl: string := "https://powerplants.vattenfall.com/"

  /** One entry of the station list: `{ name, url }`. */
  datatype StationRef = StationRef(name: string, url: string)

  /** `filteredDocs.map(…)`: one entry per document, in order. */
  function Project(docs: seq<Doc>): (r: seq<StationRef>)
    ensures |r| == |docs|
    ensures forall i | 0 <= i < |docs| :: r[i].name == docs[i].title && r[i].url == BaseUrl + docs[i].sourcePath
  {
    seq(|docs|, i requires 0 <= i < |docs| => StationRef(docs[i].title, BaseUrl + docs[i].sourcePath))
  }

  /** Every address starts with the base, and the source path can be read back from it. */
  lemma ProjectAddresses(docs: seq<Doc>, i: nat)
    requires i < |docs|
    ensures StartsWith(Project(docs)[i].url, BaseUrl)
    ensures Project(docs)[i].url[|BaseUrl|..] == docs[i].sourcePath
  {
    var u := Project(docs)[i].url;
    assert u == BaseUrl + docs[i].sourcePath;
    assert u[..|BaseUrl|] == BaseUrl;
  }

  // ---------------------------------------------------------------------------
  // The whole discovery

  /** How `getStationUrls` settles: with a list, or by rejecting (the fetch failed or the filter threw). */
  datatype Outcome = Found(stations: seq<StationRef>) | Threw

  /**
   * The listing's blob is there and parses, and the filter callback throws
   * on one of the parsed documents.
   */
  predicate FilterThrows(scripts: seq<string>, jsonParse: string -> Option<seq<Doc>>) {
    var content := LastCapture(scripts);
    && content.Some? && content.value != []
    && jsonParse(Normalise(content.value)).Some?
    && var docs := jsonParse(Normalise(content.value)).value;
       exists i | 0 <= i < |docs| :: Judge(docs[i]) == Throw
  }

  /**
   * What `getStationUrls` yields, given the page's scripts (`None` when the
   * fetch throws) and `JSON.parse` as a function.
   */
  function Discover(listing: Option<seq<string>>, jsonParse: string -> Option<seq<Doc>>): (r: Outcome)
    ensures r.Threw? <==> (listing.None? || FilterThrows(listing.value, jsonParse))
    ensures listing.Some? && (forall j | 0 <= j < |listing.value| :: ScriptCapture(listing.value[j]).None?) ==> r == Found([])
    ensures r.Found? ==> forall k | 0 <= k < |r.stations| :: StartsWith(r.stations[k].url, BaseUrl)
  {
    match listing
    case None => Threw
    case Some(scripts) =>
      match LastCapture(scripts)
      case None => Found([])
      case Some(content) =>
        if content == [] then Found([])
        else match jsonParse(Normalise(content))
          case None => Found([])
          case Some(docsArray) =>
            FilterThrowsIff(docsArray);
            match FilterDocs(docsArray)
            case None => Threw
            case Some(filtered) => Found(Project(filtered))
  }

  /** `getStationUrls`. */
  method GetStationUrls(listing: Option<seq<string>>, jsonParse: string -> Option<seq<Doc>>) returns (r: Outcome)
    ensures r == Discover(listing, jsonParse)
  {
    if listing.None? {
      return Threw;
    }
    var docsContent := FindDocsContent(listing.value);
    if docsContent.None? || docsContent.value == [] {
      return Found([]);
    }
    var text := QuoteKeys(docsContent.value);
    text := SwapQuotes(text);
    text := Wrap(text);
    var docsArray := jsonParse(text);
    if docsArray.None? {
      return Found([]);
    }
    var filteredDocs := FilterDocs(docsArray.value);
    if filteredDocs.None? {
      return Threw;
    }
    r := Found(Project(filteredDocs.value));
  }

  /** A blob that `JSON.parse` rejects gives the empty list. */
  lemma DiscoverUnparsable(scripts: seq<string>, jsonParse: string -> Option<seq<Doc>>)
    requires LastCapture(scripts).Some?
    requires jsonParse(Normalise(LastCapture(scripts).value)).None?
    ensures Discover(Some(scripts), jsonParse) == Found([])
  {
  }

  /** Every station found comes from a wanted document of the parsed blob, addressed by its source path. */
  lemma DiscoverFindsWanted(scripts: seq<string>, jsonParse: string -> Option<seq<Doc>>, k: nat)
    requires Discover(Some(scripts), jsonParse).Found?
    requires k < |Discover(Some(scripts), jsonParse).stations|
    ensures LastCapture(scripts).Some?
    ensures var docs := jsonParse(Normalise(LastCapture(scripts).value));
            && docs.Some?
            && exists d | d in docs.value :: Wanted(d) &&
                 Discover(Some(scripts), jsonParse).stations[k] == StationRef(d.title, BaseUrl + d.sourcePath)
  {
    var docs := jsonParse(Normalise(LastCapture(scripts).value)).value;
    var filtered := FilterDocs(docs).value;
    FilterSelectsWanted(docs);
    assert filtered[k] in filtered;
  }
}
