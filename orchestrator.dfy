/**
 * The service around the two scrapers: the scraping interval read from the
 * environment, the cron expression built from it, and `startScraping`,
 * which scrapes every discovered station, stamps each result with the
 * station's discovered name and replaces the served snapshot.
 */
module Orchestrator {
  import opened Wrappers
  import opened JsText
  import opened StationScraper
  import opened Discovery

  // ---------------------------------------------------------------------------
  // Merging the results

  /** `data ? { ...data, fakta: { ...data.fakta, namn: station.name } } : null`. */
  function MergeOne(station: StationRef, data: Option<StationResult>): (r: Option<StationResult>)
    ensures r.Some? <==> data.Some?
    ensures r.Some? ==> Namn in r.value.fakta && r.value.fakta[Namn] == Str(station.name)
    ensures r.Some? ==> r.value.fakta.Keys == data.value.fakta.Keys + {Namn}
    ensures r.Some? ==> forall k | k in data.value.fakta && k != Namn :: r.value.fakta[k] == data.value.fakta[k]
    ensures r.Some? ==> r.value.vatteninformation == data.value.vatteninformation
  {
    match data
    case None => None
    case Some(d) => Some(d.(fakta := d.fakta[Namn := Str(station.name)]))
  }

  /** `stationUrls.map(…)`, position by position. */
  function MergeAll(stations: seq<StationRef>, results: seq<Option<StationResult>>): (r: seq<Option<StationResult>>)
    requires |stations| == |results|
    ensures |r| == |results|
    ensures forall i | 0 <= i < |results| :: r[i] == MergeOne(stations[i], results[i])
  {
    seq(|results|, i requires 0 <= i < |results| => MergeOne(stations[i], results[i]))
  }

  /** The number of non-null entries. */
  function CountSome<T>(xs: seq<Option<T>>): nat {
    if xs == [] then 0 else CountSome(xs[..|xs| - 1]) + (if xs[|xs| - 1].Some? then 1 else 0)
  }

  /** `results.filter((result) => result !== null)`. */
  function DropNulls<T>(xs: seq<Option<T>>): (r: seq<T>)
    ensures |r| == CountSome(xs)
  {
    if xs == [] then []
    else
      var rest := DropNulls(xs[..|xs| - 1]);
      if xs[|xs| - 1].Some? then rest + [xs[|xs| - 1].value] else rest
  }

  /** The non-null entry at `i` is output number `CountSome(xs[..i])`: the number of non-null entries before it. */
  lemma {:induction false} DropNullsAt<T>(xs: seq<Option<T>>, i: nat)
    requires i < |xs| && xs[i].Some?
    ensures CountSome(xs[..i]) < |DropNulls(xs)|
    ensures DropNulls(xs)[CountSome(xs[..i])] == xs[i].value
  {
    var n := |xs| - 1;
    if i < n {
      assert xs[..n][..i] == xs[..i];
      DropNullsAt(xs[..n], i);
    } else {
      assert xs[..i] == xs[..n];
    }
  }

  /** A later non-null entry comes later in the output: the filter keeps the order. */
  lemma {:induction false} CountSomeGrows<T>(xs: seq<Option<T>>, i: nat, j: nat)
    requires i < j <= |xs| && xs[i].Some?
    ensures CountSome(xs[..i]) < CountSome(xs[..j])
    decreases j
  {
    assert xs[..j][..j - 1] == xs[..j - 1];
    if i < j - 1 {
      CountSomeGrows(xs, i, j - 1);
    }
  }

  /** Every output entry is one of the non-null entries. */
  lemma {:induction false} DropNullsOnlyValues<T>(xs: seq<Option<T>>, k: nat)
    requires k < |DropNulls(xs)|
    ensures exists i | 0 <= i < |xs| :: xs[i] == Some(DropNulls(xs)[k])
  {
    var n := |xs| - 1;
    var rest := DropNulls(xs[..n]);
    if k < |rest| {
      DropNullsOnlyValues(xs[..n], k);
      var i :| 0 <= i < n && xs[..n][i] == Some(rest[k]);
      assert xs[i] == Some(DropNulls(xs)[k]);
    } else {
      assert xs[n] == Some(DropNulls(xs)[k]);
    }
  }

  /** Two sequences with nulls in the same places have as many non-null entries. */
  lemma {:induction false} CountSomeSamePlaces<S, T>(xs: seq<Option<S>>, ys: seq<Option<T>>)
    requires |xs| == |ys|
    requires forall i | 0 <= i < |xs| :: xs[i].Some? == ys[i].Some?
    ensures CountSome(xs) == CountSome(ys)
  {
    if xs != [] {
      var n := |xs| - 1;
      CountSomeSamePlaces(xs[..n], ys[..n]);
    }
  }

  /** The scrape result of each station, in discovery order. */
  function StationResults(stations: seq<StationRef>, fetch: string -> Option<StationPage>, parseDate: string -> Option<string>)
    : (r: seq<Option<StationResult>>)
    ensures |r| == |stations|
    ensures forall i | 0 <= i < |stations| :: r[i] == ScrapeResult(fetch(stations[i].url), parseDate)
  {
    seq(|stations|, i requires 0 <= i < |stations| => ScrapeResult(fetch(stations[i].url), parseDate))
  }

  /** The value `startScraping` gives `stationData`: the merged non-null results, in order. */
  function Snapshot(stations: seq<StationRef>, fetch: string -> Option<StationPage>, parseDate: string -> Option<string>)
    : (r: seq<StationResult>)
    ensures |r| == CountSome(StationResults(stations, fetch, parseDate))
  {
    CountSomeSamePlaces(MergeAll(stations, StationResults(stations, fetch, parseDate)), StationResults(stations, fetch, parseDate));
    DropNulls(MergeAll(stations, StationResults(stations, fetch, parseDate)))
  }

  /**
   * A station whose scrape succeeded appears, after the stations before it
   * that succeeded, with its discovered name as `namn` and everything else
   * as scraped.
   */
  lemma SnapshotHoldsStation(stations: seq<StationRef>, fetch: string -> Option<StationPage>, parseDate: string -> Option<string>, i: nat)
    requires i < |stations| && StationResults(stations, fetch, parseDate)[i].Some?
    ensures var results := StationResults(stations, fetch, parseDate);
            var k := CountSome(results[..i]);
            var data := results[i].value;
            var snapshot := Snapshot(stations, fetch, parseDate);
            && k < |snapshot|
            && Namn in snapshot[k].fakta
            && snapshot[k].fakta[Namn] == Str(stations[i].name)
            && snapshot[k].fakta.Keys == data.fakta.Keys + {Namn}
            && (forall f | f in data.fakta && f != Namn :: snapshot[k].fakta[f] == data.fakta[f])
            && snapshot[k].vatteninformation == data.vatteninformation
  {
    var results := StationResults(stations, fetch, parseDate);
    var merged := MergeAll(stations, results);
    DropNullsAt(merged, i);
    CountSomeSamePlaces(merged[..i], results[..i]);
  }

  // ---------------------------------------------------------------------------
  // `parseInt` and the interval

  /** A digit of base 16 or below, in either case: its value. */
  function DigitValue(c: char): Option<nat> {
    if '0' <= c <= '9' then Some(c as int - '0' as int)
    else if 'a' <= c <= 'f' then Some(c as int - 'a' as int + 10)
    else if 'A' <= c <= 'F' then Some(c as int - 'A' as int + 10)
    else None
  }

  predicate IsRadixDigit(c: char, radix: nat) {
    DigitValue(c).Some? && DigitValue(c).value < radix
  }

  /** The length of the run of `radix` digits at the front of `s`. */
  function DigitRun(s: string, radix: nat): (n: nat)
    ensures n <= |s|
    ensures forall k | 0 <= k < n :: IsRadixDigit(s[k], radix)
    ensures n == |s| || !IsRadixDigit(s[n], radix)
  {
    if s != [] && IsRadixDigit(s[0], radix) then
      assert forall k | 1 <= k < 1 + DigitRun(s[1..], radix) :: s[k] == s[1..][k - 1];
      1 + DigitRun(s[1..], radix)
    else 0
  }

  /** The number a run of `radix` digits denotes. */
  function RunValue(s: string, radix: nat): nat
    requires forall k | 0 <= k < |s| :: IsRadixDigit(s[k], radix)
  {
    if s == [] then 0
    else
      var init := s[..|s| - 1];
      assert IsRadixDigit(s[|s| - 1], radix);
      assert forall k | 0 <= k < |init| :: init[k] == s[k];
      AppendDigit(RunValue(init, radix), radix, DigitValue(s[|s| - 1]).value)
  }

  /** The value of a run after one more digit `d` in base `radix`. */
  function AppendDigit(v: nat, radix: nat, d: nat): nat {
    v * radix + d
  }

  /**
   * The magnitude part of `parseInt`: a `0x`/`0X` prefix switches to base
   * 16, then the longest run of digits is read; `None` (NaN) when that run
   * is empty.
   */
  function ParseMagnitude(u: string): Option<nat> {
    var hex := |u| >= 2 && u[0] == '0' && (u[1] == 'x' || u[1] == 'X');
    var radix := if hex then 16 else 10;
    var body := if hex then u[2..] else u;
    var n := DigitRun(body, radix);
    if n == 0 then None else Some(RunValue(body[..n], radix))
  }

  /** Text with no decimal digit has no magnitude: not even a `0x` prefix can start. */
  lemma NoDigitNoMagnitude(u: string)
    ensures (forall k | 0 <= k < |u| :: !IsRadixDigit(u[k], 10)) ==> ParseMagnitude(u).None?
  {
    if u != [] {
      assert u[0] in u;
    }
  }

  /**
   * `parseInt(text)` with no radix: leading whitespace skipped, one optional
   * sign, then the magnitude. `-0` is returned as 0.
   */
  function ParseIntJs(text: string): (r: Option<int>)
    ensures (forall k | 0 <= k < |text| :: !IsRadixDigit(text[k], 10)) ==> r.None?
  {
    var s := TrimStart(text);
    TrimStartDropsSpaces(text);
    NoDigitNoMagnitude(s);
    NoDigitNoMagnitude(if s == [] then s else s[1..]);
    if s != [] && s[0] == '-' then
      match ParseMagnitude(s[1..])
      case None => None
      case Some(v) => var r: int := -(v as int); Some(r)
    else if s != [] && s[0] == '+' then
      match ParseMagnitude(s[1..])
      case None => None
      case Some(v) => Some(v as int)
    else
      match ParseMagnitude(s)
      case None => None
      case Some(v) => Some(v as int)
  }

  /** `parseInt(process.env.SCRAPING_INTERVAL) || 2`; an unset variable parses as NaN. */
  function IntervalHours(env: Option<string>): (h: int)
    ensures h != 0
    ensures env.None? ==> h == 2
    ensures env.Some? && ParseIntJs(env.value) in {None, Some(0)} ==> h == 2
    ensures env.Some? && ParseIntJs(env.value) !in {None, Some(0)} ==> Some(h) == ParseIntJs(env.value)
  {
    match env
    case None => 2
    case Some(text) =>
      match ParseIntJs(text)
      case None => 2
      case Some(n) => if n == 0 then 2 else n
  }

  // ---------------------------------------------------------------------------
  // Numbers as text, and the cron expression

  function DigitChar(d: nat): (c: char)
    requires d < 10
    ensures IsRadixDigit(c, 10) && DigitValue(c) == Some(d)
  {
    ('0' as int + d) as char
  }

  /** The decimal digits of `n`, most significant first, with no leading zero. */
  function NatDigits(n: nat): (r: string)
    ensures r != [] && forall k | 0 <= k < |r| :: IsRadixDigit(r[k], 10)
    ensures r[0] == '0' ==> n == 0
  {
    if n < 10 then [DigitChar(n)] else NatDigits(n / 10) + [DigitChar(n % 10)]
  }

  /** The digits read back: `NatDigits` and `RunValue` are inverse. */
  lemma {:induction false} NatDigitsValue(n: nat)
    ensures RunValue(NatDigits(n), 10) == n
  {
    if n >= 10 {
      var r := NatDigits(n);
      assert r[..|r| - 1] == NatDigits(n / 10);
      NatDigitsValue(n / 10);
    }
  }

  /** A number interpolated into a template literal (integers below 10^21 only). */
  function IntToString(n: int): (r: string)
    ensures r != [] && !IsSpace(r[0])
  {
    if n < 0 then "-" + NatDigits(-n) else NatDigits(n)
  }

  /** A digit run followed by something that is not a digit is read up to its end. */
  lemma {:induction false} DigitRunOf(w: string, t: string, radix: nat)
    requires forall k | 0 <= k < |w| :: IsRadixDigit(w[k], radix)
    requires t == [] || !IsRadixDigit(t[0], radix)
    ensures DigitRun(w + t, radix) == |w|
  {
    if w != [] {
      assert (w + t)[1..] == w[1..] + t;
      DigitRunOf(w[1..], t, radix);
    }
  }

  /** Text that starts with something other than whitespace is its own `TrimStart`. */
  lemma TrimStartNonSpace(s: string)
    requires s != [] && !IsSpace(s[0])
    ensures TrimStart(s) == s
  {
  }

  /** The magnitude of a number as text is read back, whatever follows that cannot continue it. */
  lemma ParseMagnitudeOfDigits(m: nat, t: string)
    requires t == [] || (!IsRadixDigit(t[0], 10) && (m == 0 ==> t[0] != 'x' && t[0] != 'X'))
    ensures ParseMagnitude(NatDigits(m) + t) == Some(m)
  {
    var digits := NatDigits(m);
    var u := digits + t;
    assert !(|u| >= 2 && u[0] == '0' && (u[1] == 'x' || u[1] == 'X')) by {
      if |u| >= 2 && u[0] == '0' {
        assert m == 0 && |digits| == 1;
        assert u[1] == t[0];
      }
    }
    ParseMagnitudeDecimal(u);
    assert DigitRun(u, 10) == |digits| && u[..|digits|] == digits by {
      DigitRunOf(digits, t, 10);
    }
    NatDigitsValue(m);
  }

  /** Without a `0x`/`0X` prefix the magnitude is the decimal run at the front. */
  lemma ParseMagnitudeDecimal(u: string)
    requires !(|u| >= 2 && u[0] == '0' && (u[1] == 'x' || u[1] == 'X'))
    ensures ParseMagnitude(u) == if DigitRun(u, 10) == 0 then None else Some(RunValue(u[..DigitRun(u, 10)], 10))
  {
  }

  /**
   * `parseInt` reads back the number it was given as text, whatever text
   * follows that cannot continue it.
   */
  lemma ParseIntOfString(n: int, t: string)
    requires t == [] || (!IsRadixDigit(t[0], 10) && (n == 0 ==> t[0] != 'x' && t[0] != 'X'))
    ensures ParseIntJs(IntToString(n) + t) == Some(n)
  {
    if n < 0 {
      ParseIntOfNegative(n, t);
    } else {
      ParseIntOfNonNegative(n, t);
    }
  }

  /** A leading minus negates the magnitude that follows it. */
  lemma ParseIntMinus(u: string)
    ensures ParseIntJs("-" + u) == if ParseMagnitude(u).Some? then Some(-(ParseMagnitude(u).value as int)) else None
  {
    TrimStartNonSpace("-" + u);
    assert ("-" + u)[1..] == u;
  }

  lemma ParseIntOfNegative(n: int, t: string)
    requires n < 0
    requires t == [] || (!IsRadixDigit(t[0], 10) && (n == 0 ==> t[0] != 'x' && t[0] != 'X'))
    ensures ParseIntJs(IntToString(n) + t) == Some(n)
  {
    var m: nat := -n;
    var u := NatDigits(m) + t;
    calc {
      ParseIntJs(IntToString(n) + t);
      { assert IntToString(n) + t == "-" + u by {
          assert IntToString(n) == "-" + NatDigits(m);
        }
      }
      ParseIntJs("-" + u);
      { ParseIntMinus(u);
        ParseMagnitudeOfDigits(m, t);
      }
      Some(-(m as int));
    }
  }

  lemma ParseIntOfNonNegative(n: int, t: string)
    requires n >= 0
    requires t == [] || (!IsRadixDigit(t[0], 10) && (n == 0 ==> t[0] != 'x' && t[0] != 'X'))
    ensures ParseIntJs(IntToString(n) + t) == Some(n)
  {
    var text := IntToString(n) + t;
    TrimStartNonSpace(text);
    ParseMagnitudeOfDigits(n, t);
  }

  // The cron expression of the schedule: minute 0 of every N-th hour.
  function CronExpression(hours: int): (r: string)
    ensures |r| >= 11 && r[..4] == "0 */" && r[|r| - 6..] == " * * *"
    ensures r[4..|r| - 6] == IntToString(hours)
  {
    "0 */" + IntToString(hours) + " * * *"
  }

  /** The cron expression carries the interval in its hour field, where `parseInt` reads it back. */
  lemma CronCarriesInterval(hours: int)
    ensures var cron := CronExpression(hours);
            && cron[..4] == "0 */" && cron[|cron| - 6..] == " * * *"
            && ParseIntJs(cron[4..]) == Some(hours)
  {
    var cron := CronExpression(hours);
    assert cron[4..] == IntToString(hours) + " * * *";
    ParseIntOfString(hours, " * * *");
  }

  /** With no usable interval in the environment, scraping runs every second hour. */
  lemma DefaultCron()
    ensures CronExpression(IntervalHours(None)) == "0 */2 * * *"
  {
    assert IntToString(2) == "2";
  }

  // ---------------------------------------------------------------------------
  // The running service

  /** The module-level state of the service: the interval, its cron expression and the served snapshot. */
  class App {
    const intervalHours: int
    const cronExpression: string
    var stationData: seq<StationResult>

    /** Start-up: the interval from the environment and an empty snapshot. */
    constructor (env: Option<string>)
      ensures intervalHours == IntervalHours(env)
      ensures cronExpression == CronExpression(intervalHours)
      ensures stationData == []
    {
      intervalHours := IntervalHours(env);
      cronExpression := CronExpression(IntervalHours(env));
      stationData := [];
    }

    /**
     * `startScraping`: discover the stations, scrape each, merge, drop the
     * failures, and replace `stationData` in one assignment. When discovery
     * rejects, the call rejects before the assignment: `stationData` is not
     * reassigned. Nothing handles that rejection, which is outside this model.
     */
    method StartScraping(listing: Option<seq<string>>, jsonParse: string -> Option<seq<Doc>>,
                         fetch: string -> Option<StationPage>, parseDate: string -> Option<string>)
      modifies this
      ensures Discover(listing, jsonParse).Threw? ==> stationData == old(stationData)
      ensures Discover(listing, jsonParse).Found? ==>
                stationData == Snapshot(Discover(listing, jsonParse).stations, fetch, parseDate)
    {
      var stationUrls := GetStationUrls(listing, jsonParse);
      if stationUrls.Threw? {
        return;
      }
      var results := StationResults(stationUrls.stations, fetch, parseDate);
      stationData := DropNulls(MergeAll(stationUrls.stations, results));
    }
  }
}
