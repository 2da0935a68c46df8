# vattenkraft-scraper, modelled in Dafny

The scraper collects data on Vattenfall's Swedish hydro power stations and
serves it as JSON. This project models its three pieces of sequential logic
and proves what they promise:

- **Station pages** (`stationScraper.js`). `parseNumber` is the
  string-cleaning, decimal-prefix number parser. There are two bilingual
  label→field tables. An `.each` loop folds the fact elements into the
  `fakta` record, coercing each value to a number, a status flag or a
  string. A `for` loop folds the water elements into the
  `vatteninformation` record, reading each value with OCR. Any exception
  makes the result `null`.
- **Station discovery** (`scraper.js`). The last script that holds a
  `docs: [ … ], i18n:` blob wins, and its lazily matched contents are
  normalised to JSON text in three steps:
  - bare `\w+:` keys are quoted;
  - `'` becomes `"`;
  - the text is wrapped in `[ ]`.

  The parsed documents then go through a three-tag filter and are projected
  to `{ name, url }`.
- **The service** (`index.js`). For each discovered station, its scrape
  result gets the discovered name as `namn`. Null results are dropped. The
  module-level snapshot is replaced in one assignment. The service also
  computes the scraping interval, `parseInt(env) || 2`, and the cron
  expression built from it.

Files and modules:

- `wrappers.dfy` (`Wrappers`): `Option`.
- `js_text.dfy` (`JsText`): JavaScript's whitespace class, `trim`,
  `startsWith`, `includes` and ASCII `toLowerCase`.
- `text_normalizer.dfy` (`TextNormalizer`): `parseNumber`, with
  `parseFloat` over exact decimals.
- `station_scraper.dfy` (`StationScraper`): the tables, both loops and
  `scrapeStation`.
- `discovery.dfy` (`Discovery`): `getStationUrls`.
- `orchestrator.dfy` (`Orchestrator`): the merge, `parseInt`, the cron
  string, and the `App` class that holds `stationData`.

The DOM, HTTP, the OCR engine, `JSON.parse` and the date library are
inputs:

- a station page is its title plus its fact and water items;
- each water item carries the text OCR recognises in its image (`None`
  when recognition throws);
- the date parser is a function `string -> Option<string>`;
- the map page is the list of its script texts;
- `JSON.parse` is a function that yields documents or fails;
- a page fetch is a function from URL to page (`None` when it throws).

The model follows the code where it differs from what a reader might expect:

- `"1 234,5 m"` parses as 1, because the number class has no space and only
  the first run is read (`TextNormalizer.ParseNumberStopsAtSpace`).
- `"Not in operation"` counts as operating, because it contains
  `"in operation"` (`StationScraper.OperatingExamples`).
- A numeric fact that does not parse is stored as `null`. It is not
  omitted.
- A later script whose capture trims to the empty string makes the result
  the empty list, because `""` is falsy.
- A document missing a tag field makes the filter throw only when the
  `&&` chain reaches that field.

## Model

| member | source | states |
|---|---|---|
| JsText.TrimStartDropsSpaces | stationScraper.js:27 | what `trim` drops at the front is whitespace and the rest is a suffix of the input |
| JsText.TrimEndDropsSpaces | stationScraper.js:27 | what `trim` drops at the back is whitespace and the rest is a prefix of the input |
| JsText.Trim | stationScraper.js:27 | `trim` never lengthens the text and the result ends in a non-space |
| JsText.TrimHasNoOuterSpace | stationScraper.js:58 | a trimmed text starts and ends with a non-space |
| JsText.TrimIdempotent | stationScraper.js:142 | trimming twice equals trimming once, so the date fallback is the OCR text itself |
| JsText.ContainsLowerAscii | stationScraper.js:99-100 | `toLowerCase().includes(p)` holds iff some window of the text equals `p` once its ASCII letters are lowered |
| TextNormalizer.MatchNumeric | stationScraper.js:35-36 | no match iff the text has no character of `[0-9.,-]`; a match is non-empty and made of class characters |
| TextNormalizer.MatchNumericIsFirstRun | stationScraper.js:35 | the match is exactly the first maximal run of class characters |
| TextNormalizer.StripWhitespaceNoop | stationScraper.js:38 | removing whitespace from a match changes nothing |
| TextNormalizer.StripWhitespace | stationScraper.js:38 | the result holds no whitespace and only characters of the input |
| TextNormalizer.StripWhitespaceAppend | stationScraper.js:38 | removing whitespace distributes over concatenation and keeps a single non-space character, so every non-space character is kept in order |
| TextNormalizer.CommasToDotsFixes | stationScraper.js:39 | a text without commas is unchanged by the comma replacement |
| TextNormalizer.CommasToDots | stationScraper.js:39 | same length; each comma becomes a dot and every other character stays in place |
| TextNormalizer.CollapseDots | stationScraper.js:40 | the result has no two adjacent dots, is no longer than the input and starts with a dot iff the input does |
| TextNormalizer.CollapseDotsKeepsOthers | stationScraper.js:40 | collapsing keeps every non-dot character, in order, and adds no new character |
| TextNormalizer.CollapseDotsFixes | stationScraper.js:40 | a text with no double dot is unchanged |
| TextNormalizer.CollapseDotsIdempotent | stationScraper.js:40 | collapsing twice equals collapsing once |
| TextNormalizer.CollapseDotsDotPrefix | stationScraper.js:40 | a dot in front of a dot is absorbed; a dot in front of anything else is kept |
| TextNormalizer.CollapseDotsDouble | stationScraper.js:40 | a double dot anywhere collapses exactly like a single dot in its place |
| TextNormalizer.Clean | stationScraper.js:37-40 | the cleaned text has no comma and no double dot |
| TextNormalizer.CleanAlphabet | stationScraper.js:37-40 | a cleaned match uses only digits, `.` and `-` |
| TextNormalizer.ParseFloat | stationScraper.js:42 | every number read is well formed: digit strings, not both empty |
| TextNormalizer.ParseFloatNone | stationScraper.js:42-43 | `parseFloat` is NaN iff no prefix is a decimal literal (`-?digits(.digits)?` with at least one digit) |
| TextNormalizer.ParseFloatLongestPrefix | stationScraper.js:42 | the result reads the longest decimal-literal prefix |
| TextNormalizer.LiteralLengthOfLongest | stationScraper.js:42 | the scan's literal length equals the length of the longest literal prefix |
| TextNormalizer.NoLongerLiteral | stationScraper.js:42 | no literal prefix is longer than the one read |
| TextNormalizer.ParseFloatText | stationScraper.js:42 | the decimal's text spells out the prefix that was read, up to a trailing dot |
| TextNormalizer.ParseNumber | stationScraper.js:34-47 | null when the text has no class character; otherwise any number returned is well formed |
| TextNormalizer.ParseNumberReadsFirstRun | stationScraper.js:35-42 | the result is `parseFloat` applied to the cleaned first run, and the whitespace strip is a no-op |
| TextNormalizer.ParseNumberIgnoresRest | stationScraper.js:35 | whatever follows a non-class character after the first run does not change the result |
| TextNormalizer.ParseNumberCommaRun | stationScraper.js:37-43 | `"12,,3"` reads as the decimal with whole part `"12"` and fraction `"3"`, whose value is 12.3 |
| TextNormalizer.ParseNumberDotRun | stationScraper.js:37-43 | `"12..3"` reads as the decimal with whole part `"12"` and fraction `"3"`, whose value is 12.3 |
| TextNormalizer.ParseNumberStopsAtSpace | stationScraper.js:35-43 | `"1 234,5 m"` gives 1 |
| TextNormalizer.ParseNumberLoneMinus | stationScraper.js:42-43 | `"-"` gives null |
| TextNormalizer.ParseNumberInnerMinus | stationScraper.js:42 | `"5-3"` gives 5 |
| TextNormalizer.ParseNumberSecondDot | stationScraper.js:42 | `"1.234.5"` gives 1.234 |
| TextNormalizer.ParseNumberOfClean | stationScraper.js:34-43 | a non-empty text of class characters with no comma and no double dot is handed to `parseFloat` unchanged |
| StationScraper.AssignLastWins | stationScraper.js:95 | of successive key assignments, the last one to a key decides its value |
| StationScraper.AssignUntouched | stationScraper.js:106-108 | a key that no assignment targets keeps its presence and its value |
| StationScraper.Assign | stationScraper.js:95 | assignments only add keys, and every new key is the target of one of the assignments |
| StationScraper.ApplyFact | stationScraper.js:80-108 | the `.each` callback makes exactly the assignment of one fact item: none for an unmapped label, otherwise the coerced value under the mapped field |
| StationScraper.CollectFacts | stationScraper.js:57-109 | the `.each` loop yields the record of the title under `namn` followed by the fold of the fact items |
| StationScraper.FoldFactsStep | stationScraper.js:80-109 | each further fact item applies its own assignment, if any, on top of the earlier ones |
| StationScraper.FaktaMappingFields | stationScraper.js:60-76 | the fact table maps onto every fact field except `namn` |
| StationScraper.FactUpdate | stationScraper.js:81-108 | a fact item assigns iff its trimmed label is in the fact table, and then to a table field other than `namn` |
| StationScraper.CoerceFact | stationScraper.js:88-105 | numeric fields get null iff `parseNumber` gives null and a number otherwise; the status gets a boolean; other fields get the text itself |
| StationScraper.IsOperating | stationScraper.js:98-100 | the status is true iff the text contains "i drift" or "in operation" ignoring ASCII case |
| StationScraper.FoldFacts | stationScraper.js:80-109 | the fact loop keeps every field already set and adds only fields of the fact table |
| StationScraper.FactUnmappedIgnored | stationScraper.js:87-108 | a fact item with an unmapped trimmed label leaves the record unchanged |
| StationScraper.FactMappedSets | stationScraper.js:87-105 | a mapped item sets only its field: numeric fields get `parseNumber(value)` (null included), the status gets a flag, the rest get the trimmed text |
| StationScraper.FoldFactsKeepsNamn | stationScraper.js:58-76 | `namn` keeps the trimmed `h1` title whatever fact items follow |
| StationScraper.FoldFactsLastWins | stationScraper.js:87-105 | the last item whose label maps to a field decides that field |
| StationScraper.FoldFactsUntouched | stationScraper.js:106-108 | a field no item maps to is untouched by the loop |
| StationScraper.LoweredStillContains | stationScraper.js:98-100 | an exact occurrence of a phrase without capital letters is still found after ASCII lower-casing |
| StationScraper.OperatingExamples | stationScraper.js:97-101 | `"Not in operation"` and `"Ej i drift"` count as operating and the empty text does not |
| StationScraper.OperatingIgnoresCase | stationScraper.js:98-100 | `"I drift"` and `"IN OPERATION"` count as operating |
| StationScraper.CollectWater | stationScraper.js:112-166 | the `for` loop yields the fold of the water items over the empty record |
| StationScraper.FoldWaterStep | stationScraper.js:130-166 | each further water item applies its own assignment, if any, on top of the earlier ones |
| StationScraper.LabelMappingFields | stationScraper.js:115-128 | the water table maps onto all six water fields |
| StationScraper.OcrImage | stationScraper.js:22-32 | OCR yields text iff recognition succeeds, and that text is trimmed and no longer than the recognised text |
| StationScraper.WaterUpdate | stationScraper.js:131-164 | a water item assigns iff its src starts with "data:image", OCR returns text and its label is mapped, and then to the mapped field |
| StationScraper.CoerceWater | stationScraper.js:141-160 | the timestamp is always a string, the trimmed OCR text when the date does not parse; measurements get null iff `parseNumber` gives null and a number otherwise |
| StationScraper.ApplyWater | stationScraper.js:131-165 | one pass of the `for` body makes exactly the assignment of its water item |
| StationScraper.FoldWater | stationScraper.js:130-166 | the water loop keeps every field already set and adds only fields of the water table |
| StationScraper.WaterSkippedIgnored | stationScraper.js:134-164 | an item failing one of the three conditions leaves the record unchanged |
| StationScraper.WaterMappedSets | stationScraper.js:136-160 | a passing item sets only its field: `parseNumber(ocrText)` for measurements; for the timestamp, the ISO string if the date parses and otherwise the trimmed OCR text |
| StationScraper.FoldWaterLastWins | stationScraper.js:130-166 | the last water item that sets a field decides it |
| StationScraper.FoldWaterAbsent | stationScraper.js:112-166 | a field that no water item sets is absent from the record |
| StationScraper.ScrapeStation | stationScraper.js:49-173 | the result is null iff the page could not be had; otherwise it is the two folds |
| StationScraper.ScrapeResult | stationScraper.js:49-173 | null iff the page could not be had; otherwise `namn` is the trimmed title and the water record uses only water-table fields |
| Discovery.SkipSpaces | scraper.js:20 | `\s*` taken greedily: the position returned is at or after the start and is the end of the text or a non-whitespace character |
| Discovery.SkipSpacesOverSpaces | scraper.js:20 | every character `\s*` skips is whitespace, so the position is the end of the whitespace run |
| Discovery.FirstClose | scraper.js:20 | the lazy `(.*?)`: a position found is one where `\s*\],\s*i18n:` matches and no earlier one from the capture start does; `None` means no position from the capture start on matches |
| Discovery.FirstMatch | scraper.js:20 | a position found is one where the whole pattern matches and no earlier one does; `None` means the pattern matches at no position |
| Discovery.FirstCloseAfterNonSpace | scraper.js:20 | the lazy capture never ends in whitespace |
| Discovery.CaptureIsTrimmed | scraper.js:20-22 | the capture is already trimmed, so the `trim` changes nothing |
| Discovery.FindDocsContent | scraper.js:14-25 | the `.each` loop yields the trimmed capture of the last script that yields one |
| Discovery.DocsCapture | scraper.js:20-22 | the pattern fails iff it matches at no position, and a capture is no longer than the script |
| Discovery.LastCapture | scraper.js:14-25 | `docsContent` stays null iff no script passes the guard and the pattern |
| Discovery.LastCaptureWins | scraper.js:16-25 | a capturing script with no capturing script after it decides `docsContent` |
| Discovery.WordPrefix | scraper.js:30 | `\w+` taken greedily: the front run of word characters |
| Discovery.QuoteKeys | scraper.js:30 | quoting never shortens the text and keeps a leading non-word character |
| Discovery.QuoteKeysOnlyAddsQuotes | scraper.js:30 | with every `"` removed, the quoted text equals the original with every `"` removed: only double quotes are added |
| Discovery.QuoteKeysKey | scraper.js:30 | a word run followed by `:` becomes `"run":` |
| Discovery.QuoteKeysWord | scraper.js:30 | a word run followed by another non-word character is copied |
| Discovery.QuoteKeysWordAtEnd | scraper.js:30 | a word run that ends the text is copied |
| Discovery.QuoteKeysNonWord | scraper.js:30 | a non-word character is copied, even inside string values |
| Discovery.QuoteKeysNoColon | scraper.js:30 | a text without a colon is unchanged |
| Discovery.QuoteKeysIdempotent | scraper.js:30 | quoting twice equals quoting once |
| Discovery.SwapQuotes | scraper.js:31 | every `'` becomes `"` and every other character is kept, position by position |
| Discovery.SwapQuotesLeavesNone | scraper.js:31 | no `'` remains after the swap |
| Discovery.Wrap | scraper.js:34 | the text begins with `[`, ends with `]` and holds the input in between |
| Discovery.Normalise | scraper.js:29-34 | the text handed to `JSON.parse` is the bracketed, quote-swapped, key-quoted blob |
| Discovery.NormaliseLeavesNoSingleQuote | scraper.js:29-34 | the text handed to `JSON.parse` holds no `'` |
| Discovery.Judge | scraper.js:45-49 | keeps a document iff all three fields have `includes` and include "inoperation", "Sweden" and "Hydro"; throws iff the `&&` chain reaches a field without `includes`; a drop needs a failed test |
| Discovery.JudgeShortCircuits | scraper.js:46-48 | a failed status test drops the document before the other fields are read |
| Discovery.FilterThrowsIff | scraper.js:45-49 | the filter throws iff some document's callback throws |
| Discovery.FilterSelectsWanted | scraper.js:45-49 | the survivors are an order-preserving subsequence holding exactly the wanted documents, as many as there are wanted documents |
| Discovery.FilterDocs | scraper.js:45-49 | when the filter returns, it keeps as many documents as are wanted, and each kept one is wanted |
| Discovery.CountWanted | scraper.js:45-49 | the number of wanted documents, at most the number of documents; `FilterDocs` and `FilterSelectsWanted` equate the length of the filtered list with it |
| Discovery.Project | scraper.js:52-57 | one entry per document, in order, with `name = label` and `url = base + source path` |
| Discovery.ProjectAddresses | scraper.js:55 | every URL starts with the base, and the source path can be read back from it |
| Discovery.GetStationUrls | scraper.js:5-64 | the method computes the discovery outcome of the page's scripts |
| Discovery.Discover | scraper.js:5-64 | throws iff the fetch fails or the filter throws on a parsed blob; no capture gives the empty list; every URL found starts with the base |
| Discovery.DiscoverUnparsable | scraper.js:37-42 | a blob that `JSON.parse` rejects gives the empty list |
| Discovery.DiscoverFindsWanted | scraper.js:45-57 | every station found comes from a wanted parsed document, named and addressed from it |
| Orchestrator.MergeOne | index.js:25-35 | null stays null; otherwise `namn` becomes the discovered name, every other fact passes through, and `vatteninformation` is unchanged |
| Orchestrator.MergeAll | index.js:24-36 | the merge is applied position by position |
| Orchestrator.DropNulls | index.js:39 | the output has exactly as many entries as there are non-null inputs |
| Orchestrator.DropNullsAt | index.js:39 | the non-null entry at `i` is output number (count of non-null entries before `i`) |
| Orchestrator.CountSomeGrows | index.js:39 | a later non-null entry lands later in the output |
| Orchestrator.DropNullsOnlyValues | index.js:39 | every output entry is one of the non-null inputs |
| Orchestrator.Snapshot | index.js:24-39 | the snapshot has one entry per station whose scrape succeeded |
| Orchestrator.SnapshotHoldsStation | index.js:24-39 | each successful station appears, in discovery order, with its discovered name and otherwise as scraped |
| Orchestrator.IntervalHours | index.js:12 | the interval is never 0; it is 2 when the variable is unset, parses as NaN or parses as 0, and is the parsed value otherwise |
| Orchestrator.ParseIntOfString | index.js:12 | `parseInt` reads back any integer written in decimal, followed by text that does not start with a digit (nor with `x`/`X` after a lone `0`, which would read as hex) |
| Orchestrator.ParseIntMinus | index.js:12 | a leading minus negates the magnitude after it |
| Orchestrator.ParseIntJs | index.js:12 | text without a decimal digit gives NaN |
| Orchestrator.NatDigitsValue | index.js:50 | the decimal digits of `n` denote `n` |
| Orchestrator.CronExpression | index.js:50 | the cron string is `"0 */"`, the decimal interval, then `" * * *"` |
| Orchestrator.CronCarriesInterval | index.js:50 | the cron string is `"0 */"`, the interval, then `" * * *"`, and `parseInt` of its hour field gives the interval back |
| Orchestrator.DefaultCron | index.js:50 | with no usable interval the schedule is `"0 */2 * * *"` |
| Orchestrator.App.constructor | index.js:12-14 | the service starts with the interval from the environment, its cron string and an empty snapshot |
| Orchestrator.App.StartScraping | index.js:16-47 | a rejected discovery does not reassign `stationData`; otherwise `stationData` is replaced wholesale by the snapshot |

## Left out

- The OCR engine is left out: worker creation, `recognize`, the character whitelist and `terminate` (stationScraper.js:8-32, index.js:22, 42). Each water item carries the recognised text as an input.
- Concurrent station scrapes share one OCR worker. That concurrency is not modelled: each station's result depends only on its own page.
- HTTP fetches and DOM queries are inputs: the title, the fact and water items, the `img` src values and the script texts. That includes removing `span` children from fact values. A page fetch is a pure function of the URL.
- Date parsing with the Europe/Stockholm zone and conversion to an ISO string is an uninterpreted parameter, `string -> Option<string>`.
- TextNormalizer.ParseFloat: numbers are exact decimals (sign, whole digits, fraction digits), not IEEE-754 doubles. Rounding, `-0` and the precision of long digit strings are not modelled.
- TextNormalizer.ParseFloat: the exponent, `+` and `Infinity` forms are not modelled. They cannot occur, because cleaned text has only digits, `.` and `-`.
- `JSON.parse` itself is a parameter. Documents whose `label` or `ss_field_source_path` is missing or not a string are not modelled. JavaScript would give an undefined name, or a URL ending in "undefined".
- Lookups of inherited object keys such as "constructor" or "toString" in `faktaMapping`, `labelMapping` and the document fields are not modelled. Only the listed labels are keys.
- Strings are sequences of Unicode scalar values, not UTF-16 code units. `toLowerCase` is modelled on ASCII letters only. That is enough for the ASCII status phrases.
- The key order of the built records, and the JSON encoding served by the API endpoint, are not modelled.
- Orchestrator.ParseIntJs: does not model the precision loss of `parseInt` beyond 2^53.
- Orchestrator.IntToString: does not model exponent notation, which JavaScript uses for integers of 10^21 and above.
- The express server, the node-cron schedule (including its rejection of a negative interval), the timing, the logging and logger.js are I/O and configuration.
- A `startScraping` run whose worker creation fails is not modelled. Such a run rejects before `stationData` is assigned, just as a rejected discovery does.
- Orchestrator.App.StartScraping: what happens after a rejection is not modelled. Neither caller handles the rejected promise (index.js:51-53, 56), and on current Node an unhandled rejection ends the process, so the served snapshot need not outlive it. The model only states that `stationData` is not reassigned.
