/**
 * `scrapeStation`: from one station page, the fact record (`fakta`) and the
 * water-information record (`vatteninformation`).
 *
 * The page arrives already taken apart by the DOM layer: the `h1` text, the
 * label and value texts of each `.aside-information .fact` element (value
 * with its `span` children removed), and, for each `#water .fact` element,
 * its label text, its `img` src when there is one, and what the OCR engine
 * recognises in that image.
 */
module StationScraper {
  import opened Wrappers
  import opened JsText
  import opened TextNormalizer

  /** A field value of the records the scraper builds: `null`, a boolean, a number or a string. */
  datatype JsValue = Null | Bool(b: bool) | Number(n: Decimal) | Str(s: string)

  /** The keys of `fakta`. */
  datatype FactField =
    | Namn | Land | ElektriskEffekt | Vattendrag | Fallhojd | Vattenforing | Turbintyp | Agarandel | DriftStatus

  /** The keys of `vatteninformation`. */
  datatype WaterField = OvanDamm | UnderDamm | Totalt | GenomTurbin | GenomDammLucka | SenasteUppdatering

  type FactRecord = map<FactField, JsValue>
  type WaterRecord = map<WaterField, JsValue>

  /** `faktaMapping`: Swedish and English fact labels. */
  const FaktaMapping: map<string, FactField> := map[
    "Land" := Land,
    "Country" := Land,
    "Elektrisk effekt" := ElektriskEffekt,
    "Electric capacity" := ElektriskEffekt,
    "Vattendrag" := Vattendrag,
    "Watercourse" := Vattendrag,
    "Fallhöjd" := Fallhojd,
    "Head" := Fallhojd,
    "Vattenföring" := Vattenforing,
    "Flow rate" := Vattenforing,
    "Turbintyp" := Turbintyp,
    "Turbine type" := Turbintyp,
    "Vattenfalls ägarandel" := Agarandel,
    "Vattenfall's ownership share" := Agarandel,
    "Status" := DriftStatus
  ]

  /** `labelMapping`: Swedish and English water-information labels. */
  const LabelMapping: map<string, WaterField> := map[
    "Ovan damm" := OvanDamm,
    "Above pond" := OvanDamm,
    "Under damm" := UnderDamm,
    "Below pond" := UnderDamm,
    "Totalt" := Totalt,
    "Total" := Totalt,
    "Genom turbin" := GenomTurbin,
    "Through turbine" := GenomTurbin,
    "Genom dammluckan" := GenomDammLucka,
    "Through pond hatch" := GenomDammLucka,
    "Senaste uppdatering" := SenasteUppdatering,
    "Last update" := SenasteUppdatering
  ]

  /** One fact element: its label text and its value text (spans already removed). */
  datatype FactItem = FactItem(labelText: string, value: string)

  /**
   * One water element: its label text, the `src` of its `img` (None when there
   * is no image or no src), and the text the OCR engine recognises in that
   * image (None when recognition throws).
   */
  datatype WaterItem = WaterItem(labelText: string, imgSrc: Option<string>, recognized: Option<string>)

  /** What the DOM layer reads off one station page. */
  datatype StationPage = StationPage(title: string, facts: seq<FactItem>, water: seq<WaterItem>)

  /** `{ fakta, vatteninformation }`. */
  datatype StationResult = StationResult(fakta: FactRecord, vatteninformation: WaterRecord)

  // ---------------------------------------------------------------------------
  // Records built by successive key assignments

  /** Assigns the pair an update carries, if it carries one. */
  function Put<K, V>(m: map<K, V>, update: Option<(K, V)>): map<K, V> {
    match update
    case None => m
    case Some((k, v)) => m[k := v]
  }

  /** The map after the updates, applied in order. */
  function Assign<K, V>(m: map<K, V>, updates: seq<Option<(K, V)>>): (r: map<K, V>)
    ensures m.Keys <= r.Keys
    ensures forall k | k in r && k !in m :: exists i | 0 <= i < |updates| :: Targets(updates[i], k)
  {
    if updates == [] then m else Put(Assign(m, updates[..|updates| - 1]), updates[|updates| - 1])
  }

  /** An update that assigns to key `k`. */
  predicate Targets<K(==), V>(update: Option<(K, V)>, k: K) {
    update.Some? && update.value.0 == k
  }

  /** The last update that assigns to `k` decides its value: later writes overwrite earlier ones. */
  lemma {:induction false} AssignLastWins<K, V>(m: map<K, V>, updates: seq<Option<(K, V)>>, k: K, i: nat)
    requires i < |updates| && Targets(updates[i], k)
    requires forall j | i < j < |updates| :: !Targets(updates[j], k)
    ensures k in Assign(m, updates) && Assign(m, updates)[k] == updates[i].value.1
  {
    var n := |updates| - 1;
    if i < n {
      AssignLastWins(m, updates[..n], k, i);
      assert !Targets(updates[n], k);
    }
  }

  /** A key that no update assigns to keeps its presence and its value. */
  lemma {:induction false} AssignUntouched<K, V>(m: map<K, V>, updates: seq<Option<(K, V)>>, k: K)
    requires forall j | 0 <= j < |updates| :: !Targets(updates[j], k)
    ensures (k in Assign(m, updates)) == (k in m)
    ensures k in m ==> Assign(m, updates)[k] == m[k]
  {
    if updates != [] {
      var n := |updates| - 1;
      AssignUntouched(m, updates[..n], k);
      assert !Targets(updates[n], k);
    }
  }

  // ---------------------------------------------------------------------------
  // The fact items

  /** The four fields stored as `parseNumber(value)`. */
  predicate IsNumericFact(f: FactField) {
    f == ElektriskEffekt || f == Fallhojd || f == Vattenforing || f == Agarandel
  }

  /** `parseNumber`'s result as a field value: a number, or `null`. */
  function NumberOrNull(r: Option<Decimal>): JsValue {
    match r
    case None => Null
    case Some(d) => Number(d)
  }

  /** The operating status: the lower-cased text includes "i drift" or "in operation". */
  predicate IsOperating(value: string)
    ensures IsOperating(value) <==>
              ContainsIgnoringCase(value, "i drift") || ContainsIgnoringCase(value, "in operation")
  {
    ContainsLowerAscii(value, "i drift");
    ContainsLowerAscii(value, "in operation");
    Contains(LowerAscii(value), "i drift") || Contains(LowerAscii(value), "in operation")
  }

  /** How a mapped fact field stores its (trimmed) value text. */
  function CoerceFact(property: FactField, value: string): (r: JsValue)
    ensures IsNumericFact(property) ==> (r.Null? <==> ParseNumber(value).None?) && (r.Number? <==> ParseNumber(value).Some?)
    ensures property == DriftStatus ==> r.Bool?
    ensures !IsNumericFact(property) && property != DriftStatus ==> r == Str(value)
  {
    if IsNumericFact(property) then NumberOrNull(ParseNumber(value))
    else if property == DriftStatus then Bool(IsOperating(value))
    else Str(value)
  }

  /** The key assignment one fact item makes, if its trimmed label is mapped. */
  function FactUpdate(item: FactItem): (r: Option<(FactField, JsValue)>)
    ensures r.Some? <==> Trim(item.labelText) in FaktaMapping
    ensures r.Some? ==> r.value.0 != Namn && r.value.0 in FaktaMapping.Values
  {
    FaktaMappingFields();
    var caption := Trim(item.labelText);
    if caption in FaktaMapping then Some((FaktaMapping[caption], CoerceFact(FaktaMapping[caption], Trim(item.value))))
    else None
  }

  /** The assignments of the fact items, item by item. */
  function FactUpdates(items: seq<FactItem>): (r: seq<Option<(FactField, JsValue)>>)
    ensures |r| == |items| && forall i | 0 <= i < |items| :: r[i] == FactUpdate(items[i])
  {
    if items == [] then [] else FactUpdates(items[..|items| - 1]) + [FactUpdate(items[|items| - 1])]
  }

  /** `fakta` after the fact items, starting from `fakta`. */
  function FoldFacts(fakta: FactRecord, items: seq<FactItem>): (r: FactRecord)
    ensures fakta.Keys <= r.Keys
    ensures forall p | p in r && p !in fakta :: p in FaktaMapping.Values
  {
    Assign(fakta, FactUpdates(items))
  }

  /** One more fact item makes its own assignment on top of the record of the earlier ones. */
  lemma FoldFactsStep(fakta: FactRecord, items: seq<FactItem>, item: FactItem)
    ensures FoldFacts(fakta, items + [item]) == Put(FoldFacts(fakta, items), FactUpdate(item))
  {
    assert (items + [item])[..|items|] == items;
  }

  /** `fakta` before the loop: only the page title, trimmed, under `namn`. */
  function InitialFacts(title: string): FactRecord {
    map[Namn := Str(Trim(title))]
  }

  /** The `.each` callback: one fact item's assignment to `fakta`, if its trimmed label is mapped. */
  method ApplyFact(fakta: FactRecord, item: FactItem) returns (next: FactRecord)
    ensures next == Put(fakta, FactUpdate(item))
  {
    next := fakta;
    var caption := Trim(item.labelText);
    var value := Trim(item.value);
    if caption in FaktaMapping {
      var property := FaktaMapping[caption];
      if IsNumericFact(property) {
        var parsedValue := ParseNumber(value);
        next := next[property := NumberOrNull(parsedValue)];
      } else if property == DriftStatus {
        next := next[property := Bool(IsOperating(value))];
      } else {
        next := next[property := Str(value)];
      }
    }
  }

  /** The `faktaItems.each` loop. */
  method CollectFacts(title: string, items: seq<FactItem>) returns (fakta: FactRecord)
    ensures fakta == FoldFacts(InitialFacts(title), items)
  {
    fakta := map[];
    fakta := fakta[Namn := Str(Trim(title))];
    ghost var start := InitialFacts(title);
    assert items[..0] == [];
    var i := 0;
    while i < |items|
      invariant 0 <= i <= |items|
      invariant fakta == FoldFacts(start, items[..i])
    {
      var done := items[..i];
      assert items[..i + 1] == done + [items[i]];
      FoldFactsStep(start, done, items[i]);
      fakta := ApplyFact(fakta, items[i]);
      i := i + 1;
    }
    assert items[..i] == items;
  }

  /** No label maps to `namn`, and every other fact field has a label. */
  lemma FaktaMappingFields()
    ensures FaktaMapping.Values == {Land, ElektriskEffekt, Vattendrag, Fallhojd, Vattenforing, Turbintyp, Agarandel, DriftStatus}
  {
    assert FaktaMapping["Land"] == Land;
    assert FaktaMapping["Elektrisk effekt"] == ElektriskEffekt;
    assert FaktaMapping["Vattendrag"] == Vattendrag;
    assert FaktaMapping["Head"] == Fallhojd;
    assert FaktaMapping["Flow rate"] == Vattenforing;
    assert FaktaMapping["Turbintyp"] == Turbintyp;
    assert FaktaMapping["Vattenfalls ägarandel"] == Agarandel;
    assert FaktaMapping["Status"] == DriftStatus;
  }

  /** A fact item whose trimmed label is not in the table assigns nothing. */
  lemma FactUnmappedIgnored(fakta: FactRecord, item: FactItem)
    requires Trim(item.labelText) !in FaktaMapping
    ensures Put(fakta, FactUpdate(item)) == fakta
  {
  }

  /**
   * A mapped fact item sets its field, and only that field: numeric fields
   * get `parseNumber(value)` and are present even when that is `null`, the
   * status gets a boolean, the others the trimmed text.
   */
  lemma FactMappedSets(fakta: FactRecord, item: FactItem, p: FactField)
    requires Trim(item.labelText) in FaktaMapping && FaktaMapping[Trim(item.labelText)] == p
    ensures var r := Put(fakta, FactUpdate(item));
            && r.Keys == fakta.Keys + {p}
            && (forall k | k in fakta && k != p :: r[k] == fakta[k])
            && (IsNumericFact(p) ==> r[p] == NumberOrNull(ParseNumber(Trim(item.value))))
            && (p == DriftStatus ==> r[p] == Bool(IsOperating(Trim(item.value))))
            && (!IsNumericFact(p) && p != DriftStatus ==> r[p] == Str(Trim(item.value)))
  {
  }

  /** `namn` keeps the page title whatever fact items follow. */
  lemma FoldFactsKeepsNamn(title: string, items: seq<FactItem>)
    ensures Namn in FoldFacts(InitialFacts(title), items)
    ensures FoldFacts(InitialFacts(title), items)[Namn] == Str(Trim(title))
  {
    FaktaMappingFields();
    var ups := FactUpdates(items);
    forall j | 0 <= j < |ups| ensures !Targets(ups[j], Namn) {
      var caption := Trim(items[j].labelText);
      if caption in FaktaMapping {
        assert FaktaMapping[caption] in FaktaMapping.Values;
      }
    }
    AssignUntouched(InitialFacts(title), ups, Namn);
  }

  /** The last fact item whose label maps to a field decides that field. */
  lemma FoldFactsLastWins(fakta: FactRecord, items: seq<FactItem>, i: nat)
    requires i < |items| && Trim(items[i].labelText) in FaktaMapping
    requires forall j | i < j < |items| ::
      Trim(items[j].labelText) !in FaktaMapping || FaktaMapping[Trim(items[j].labelText)] != FaktaMapping[Trim(items[i].labelText)]
    ensures var p := FaktaMapping[Trim(items[i].labelText)];
            p in FoldFacts(fakta, items) && FoldFacts(fakta, items)[p] == CoerceFact(p, Trim(items[i].value))
  {
    var p := FaktaMapping[Trim(items[i].labelText)];
    AssignLastWins(fakta, FactUpdates(items), p, i);
  }

  /** A field no fact item maps to is untouched by the loop. */
  lemma FoldFactsUntouched(fakta: FactRecord, items: seq<FactItem>, p: FactField)
    requires forall j | 0 <= j < |items| ::
      Trim(items[j].labelText) !in FaktaMapping || FaktaMapping[Trim(items[j].labelText)] != p
    ensures (p in FoldFacts(fakta, items)) == (p in fakta)
    ensures p in fakta ==> FoldFacts(fakta, items)[p] == fakta[p]
  {
    AssignUntouched(fakta, FactUpdates(items), p);
  }

  // ---------------------------------------------------------------------------
  // The water items

  /** `ocrImage`: the recognised text, trimmed, or `null` when recognition throws. */
  function OcrImage(recognized: Option<string>): (r: Option<string>)
    ensures r.Some? <==> recognized.Some?
    ensures r.Some? ==> Trim(r.value) == r.value && |r.value| <= |recognized.value|
  {
    match recognized
    case None => None
    case Some(text) =>
      TrimIdempotent(text);
      Some(Trim(text))
  }

  /** The element shows an inline image: its src starts with "data:image". */
  predicate HasInlineImage(item: WaterItem) {
    item.imgSrc.Some? && StartsWith(item.imgSrc.value, "data:image")
  }

  /**
   * How the OCR text of a mapped water field is stored: the timestamp as the
   * ISO string when `parseDate` accepts the trimmed text and as that text
   * otherwise; every other field as `parseNumber(ocrText)`.
   */
  function CoerceWater(property: WaterField, ocrText: string, parseDate: string -> Option<string>): (r: JsValue)
    ensures property == SenasteUppdatering ==> r.Str?
    ensures property == SenasteUppdatering && parseDate(Trim(ocrText)).None? ==> r == Str(Trim(ocrText))
    ensures property != SenasteUppdatering ==> (r.Null? <==> ParseNumber(ocrText).None?) && (r.Number? <==> ParseNumber(ocrText).Some?)
  {
    if property == SenasteUppdatering then
      var dateString := Trim(ocrText);
      match parseDate(dateString)
      case Some(iso) => Str(iso)
      case None => Str(dateString)
    else NumberOrNull(ParseNumber(ocrText))
  }

  /** The key assignment one water item makes, if any. */
  function WaterUpdate(item: WaterItem, parseDate: string -> Option<string>): (r: Option<(WaterField, JsValue)>)
    ensures r.Some? <==> HasInlineImage(item) && item.recognized.Some? && Trim(item.labelText) in LabelMapping
    ensures r.Some? ==> r.value.0 == LabelMapping[Trim(item.labelText)]
  {
    var caption := Trim(item.labelText);
    if HasInlineImage(item) && OcrImage(item.recognized).Some? && caption in LabelMapping then
      Some((LabelMapping[caption], CoerceWater(LabelMapping[caption], OcrImage(item.recognized).value, parseDate)))
    else None
  }

  /** The assignments of the water items, item by item. */
  function WaterUpdates(items: seq<WaterItem>, parseDate: string -> Option<string>): (r: seq<Option<(WaterField, JsValue)>>)
    ensures |r| == |items| && forall i | 0 <= i < |items| :: r[i] == WaterUpdate(items[i], parseDate)
  {
    if items == [] then [] else WaterUpdates(items[..|items| - 1], parseDate) + [WaterUpdate(items[|items| - 1], parseDate)]
  }

  /** `vatteninformation` after the water items, starting from `info`. */
  function FoldWater(info: WaterRecord, items: seq<WaterItem>, parseDate: string -> Option<string>): (r: WaterRecord)
    ensures info.Keys <= r.Keys
    ensures forall p | p in r && p !in info :: p in LabelMapping.Values
  {
    Assign(info, WaterUpdates(items, parseDate))
  }

  /** One more water item makes its own assignment on top of the record of the earlier ones. */
  lemma FoldWaterStep(info: WaterRecord, items: seq<WaterItem>, item: WaterItem, parseDate: string -> Option<string>)
    ensures FoldWater(info, items + [item], parseDate) == Put(FoldWater(info, items, parseDate), WaterUpdate(item, parseDate))
  {
    assert (items + [item])[..|items|] == items;
  }

  /** The body of the water loop: one water element, with at most one OCR call. */
  method ApplyWater(info: WaterRecord, item: WaterItem, parseDate: string -> Option<string>) returns (next: WaterRecord)
    ensures next == Put(info, WaterUpdate(item, parseDate))
  {
    next := info;
    var caption := Trim(item.labelText);
    var imgSrc := item.imgSrc;
    if imgSrc.Some? && StartsWith(imgSrc.value, "data:image") {
      var ocrText := OcrImage(item.recognized);
      if ocrText.Some? {
        if caption in LabelMapping {
          var property := LabelMapping[caption];
          if property == SenasteUppdatering {
            var dateString := Trim(ocrText.value);
            var date := parseDate(dateString);
            if date.Some? {
              next := next[SenasteUppdatering := Str(date.value)];
            } else {
              next := next[SenasteUppdatering := Str(dateString)];
            }
          } else {
            var parsedValue := ParseNumber(ocrText.value);
            next := next[property := NumberOrNull(parsedValue)];
          }
        }
      }
    }
  }

  /** The `for (let i …)` loop over the water elements. */
  method CollectWater(items: seq<WaterItem>, parseDate: string -> Option<string>) returns (info: WaterRecord)
    ensures info == FoldWater(map[], items, parseDate)
  {
    info := map[];
    assert items[..0] == [];
    for i := 0 to |items|
      invariant info == FoldWater(map[], items[..i], parseDate)
    {
      var done := items[..i];
      assert items[..i + 1] == done + [items[i]];
      FoldWaterStep(map[], done, items[i], parseDate);
      info := ApplyWater(info, items[i], parseDate);
    }
    assert items[..|items|] == items;
  }

  /** Every water field has a label, in both languages. */
  lemma LabelMappingFields()
    ensures LabelMapping.Values == {OvanDamm, UnderDamm, Totalt, GenomTurbin, GenomDammLucka, SenasteUppdatering}
  {
    assert LabelMapping["Ovan damm"] == OvanDamm;
    assert LabelMapping["Under damm"] == UnderDamm;
    assert LabelMapping["Totalt"] == Totalt;
    assert LabelMapping["Genom turbin"] == GenomTurbin;
    assert LabelMapping["Genom dammluckan"] == GenomDammLucka;
    assert LabelMapping["Senaste uppdatering"] == SenasteUppdatering;
  }

  /** A water item that fails one of the three conditions assigns nothing. */
  lemma WaterSkippedIgnored(info: WaterRecord, item: WaterItem, parseDate: string -> Option<string>)
    requires !HasInlineImage(item) || item.recognized.None? || Trim(item.labelText) !in LabelMapping
    ensures Put(info, WaterUpdate(item, parseDate)) == info
  {
  }

  /**
   * A water item that passes them sets its field: a number or `null` from
   * `parseNumber(ocrText)`, or for the timestamp the ISO string or, when
   * `parseDate` rejects it, the OCR text itself.
   */
  lemma WaterMappedSets(info: WaterRecord, item: WaterItem, parseDate: string -> Option<string>, p: WaterField)
    requires HasInlineImage(item) && item.recognized.Some?
    requires Trim(item.labelText) in LabelMapping && LabelMapping[Trim(item.labelText)] == p
    ensures var ocrText := Trim(item.recognized.value);
            var r := Put(info, WaterUpdate(item, parseDate));
            && r.Keys == info.Keys + {p}
            && (forall k | k in info && k != p :: r[k] == info[k])
            && (p != SenasteUppdatering ==> r[p] == NumberOrNull(ParseNumber(ocrText)))
            && (p == SenasteUppdatering ==>
                  r[p] == (if parseDate(ocrText).Some? then Str(parseDate(ocrText).value) else Str(ocrText)))
  {
    TrimIdempotent(item.recognized.value);
  }

  /** The last water item that sets a field decides it. */
  lemma FoldWaterLastWins(info: WaterRecord, items: seq<WaterItem>, parseDate: string -> Option<string>, i: nat, p: WaterField)
    requires i < |items| && Targets(WaterUpdate(items[i], parseDate), p)
    requires forall j | i < j < |items| :: !Targets(WaterUpdate(items[j], parseDate), p)
    ensures p in FoldWater(info, items, parseDate)
    ensures FoldWater(info, items, parseDate)[p] == WaterUpdate(items[i], parseDate).value.1
  {
    AssignLastWins(info, WaterUpdates(items, parseDate), p, i);
  }

  /** A field that no water item sets is absent from the record the loop builds. */
  lemma FoldWaterAbsent(items: seq<WaterItem>, parseDate: string -> Option<string>, p: WaterField)
    requires forall j | 0 <= j < |items| :: !Targets(WaterUpdate(items[j], parseDate), p)
    ensures p !in FoldWater(map[], items, parseDate)
  {
    AssignUntouched(map[], WaterUpdates(items, parseDate), p);
  }

  // ---------------------------------------------------------------------------
  // One station

  /** What `scrapeStation` returns for a page; `None` (null) when fetching or parsing the page throws. */
  function ScrapeResult(page: Option<StationPage>, parseDate: string -> Option<string>): (r: Option<StationResult>)
    ensures r.None? <==> page.None?
    ensures r.Some? ==> Namn in r.value.fakta && r.value.fakta[Namn] == Str(Trim(page.value.title))
    ensures r.Some? ==> r.value.vatteninformation.Keys <= LabelMapping.Values
  {
    match page
    case None => None
    case Some(p) =>
      FoldFactsKeepsNamn(p.title, p.facts);
      Some(StationResult(FoldFacts(InitialFacts(p.title), p.facts), FoldWater(map[], p.water, parseDate)))
  }

  /** `scrapeStation`: the two loops, with the catch-all that turns any exception into `null`. */
  method ScrapeStation(page: Option<StationPage>, parseDate: string -> Option<string>) returns (r: Option<StationResult>)
    ensures r.None? <==> page.None?
    ensures r == ScrapeResult(page, parseDate)
  {
    if page.None? {
      return None;
    }
    var fakta := CollectFacts(page.value.title, page.value.facts);
    var vatteninformation := CollectWater(page.value.water, parseDate);
    r := Some(StationResult(fakta, vatteninformation));
  }

  // ---------------------------------------------------------------------------
  // The operating status, worked out

  /**
   * The status test ignores ASCII case: text that includes a phrase written
   * in lower case still includes it once lower-cased.
   */
  lemma LoweredStillContains(s: string, sub: string, i: nat)
    requires OccursAt(s, sub, i)
    requires forall k | 0 <= k < |sub| :: !('A' <= sub[k] <= 'Z')
    ensures Contains(LowerAscii(s), sub)
  {
    var r := LowerAscii(s);
    assert r[i..i + |sub|] == sub by {
      forall k | 0 <= k < |sub| ensures r[i + k] == sub[k] {
        assert s[i + k] == sub[k];
      }
    }
    assert OccursAt(r, sub, i);
  }

  /** Case does not matter: "I drift" and "IN OPERATION" count as operating. */
  lemma OperatingIgnoresCase()
    ensures IsOperating("I drift")
    ensures IsOperating("IN OPERATION")
  {
    assert LowerAscii("I drift") == "i drift";
    assert OccursAt(LowerAscii("I drift"), "i drift", 0);
    assert LowerAscii("IN OPERATION") == "in operation";
    assert OccursAt(LowerAscii("IN OPERATION"), "in operation", 0);
  }

  /**
   * "Not in operation" and "Ej i drift" count as operating, because they
   * contain a phrase; an empty value does not.
   */
  lemma OperatingExamples()
    ensures IsOperating("Not in operation")
    ensures IsOperating("Ej i drift")
    ensures !IsOperating("")
  {
    LoweredStillContains("Not in operation", "in operation", 4);
    assert "Ej i drift"[3..] == "i drift";
    LoweredStillContains("Ej i drift", "i drift", 3);
  }
}
