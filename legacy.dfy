/**
 * The older script super_algorithm.py: `get_wikipedia_field`, `extract_text_from_element`,
 * `parse_area`, `parse_population`, `generate_country_urls`, `clean_data` and
 * `remove_duplicates`. Its records are plain dicts, modelled as maps from keys to Python values.
 */
module Legacy {
  import opened Wrappers
  import opened Text
  import opened Extraction
  import opened Numbers
  import opened Dedupe
  import Parser

  /** The Python values the script's dicts hold. */
  datatype PyValue = PyNone | PyStr(s: string) | PyFloat(f: real) | PyInt(i: int)

  /** Python's truth value of `v`. */
  predicate Truthy(v: PyValue) {
    match v
    case PyNone => false
    case PyStr(s) => s != ""
    case PyFloat(f) => f != 0.0
    case PyInt(i) => i != 0
  }

  /** The exceptions the script raises. */
  datatype PyError = KeyError(key: string) | AttributeError | TypeError | ValueError

  /** The `field_names` argument: one label or a list of them. */
  datatype FieldNames = Single(name: string) | Several(names: seq<string>)

  /** A single string is looked up as a one-element list. */
  function AsList(f: FieldNames): (r: seq<string>)
    ensures f.Single? ==> r == [f.name]
    ensures f.Several? ==> r == f.names
  {
    match f
    case Single(n) => [n]
    case Several(ns) => ns
  }

  /** The `parse_function` argument. */
  datatype Converter = NoConversion | AreaConversion | PopulationConversion

  /** `parse_area(text)`: the float of the first run, or `0` when there is none or it does not convert. */
  function ParseArea(text: string): (v: PyValue)
    ensures ParseNumber(text).None? ==> v == PyInt(0)
    ensures ParseNumber(text).Some? ==> v == PyFloat(ParseNumber(text).value)
  {
    match RawNumber(text)
    case None => PyInt(0)
    case Some(raw) => if Count(raw, '.') > 1 then PyInt(0) else PyFloat(DecimalValue(raw))
  }

  /** `parse_population(text)`: `int(...)` of the comma-stripped run, which fails (giving `0`) when it holds a point. */
  function ParsePopulation(text: string): (v: PyValue)
    ensures v.PyInt? && v.i >= 0
    ensures RawNumber(text).None? ==> v == PyInt(0)
    ensures RawNumber(text).Some? && '.' in RawNumber(text).value ==> v == PyInt(0)
    ensures RawNumber(text).Some? && '.' !in RawNumber(text).value ==> Some(v.i) == WholePart(text)
  {
    match RawNumber(text)
    case None => PyInt(0)
    case Some(raw) =>
      if '.' in raw then PyInt(0)
      else
        assert AllDigits(raw);
        assert WholeDigits(raw) == raw;
        PyInt(DigitsValue(raw))
  }

  /** Where the numeral has no point, the legacy and the current population agree. */
  lemma PopulationsAgree(text: string)
    requires RawNumber(text).Some? && '.' !in RawNumber(text).value
    ensures Parser.PopulationOf(text) == Some(ParsePopulation(text).i)
  {
    assert Count(RawNumber(text).value, '.') == 0;
  }

  /** "1,234.5 km2": the current parser reads population 1234; the legacy one gives 0, so the field is not found. */
  lemma PopulationsDifferOnPoint()
    ensures Parser.PopulationOf("1,234.5 km2") == Some(1234)
    ensures ParsePopulation("1,234.5 km2") == PyInt(0)
  {
    AreaExample();
    AreaExampleRaw();
    assert "1234.5"[4] == '.';
    assert Truncate(1234.5) == 1234;
  }

  /** The chosen `parse_function` applied to the cell text; none leaves the text as a string. */
  function Convert(conv: Converter, text: string): (v: PyValue)
    ensures conv.NoConversion? ==> v == PyStr(text)
    ensures conv.AreaConversion? ==> (v.PyFloat? <==> ParseNumber(text).Some?)
    ensures conv.PopulationConversion? ==> v.PyInt? && v.i >= 0
    ensures !conv.NoConversion? && text == "" ==> !Truthy(v)
  {
    match conv
    case NoConversion => PyStr(text)
    case AreaConversion => ParseArea(text)
    case PopulationConversion => ParsePopulation(text)
  }

  /** What one label gives: a value to return, nothing (try the next label), or the exception that ends the call. */
  datatype Step = Found(v: PyValue) | Next | Abort

  /**
   * One label of `get_wikipedia_field` on the untouched table: the converted value of the
   * cell after the first matching heading, when truthy. A matching heading with no data cell
   * after it anywhere on the page makes the link lookup raise.
   */
  function LabelStep(nodes: seq<Node>, lbl: string, conv: Converter): (o: Step)
    ensures o.Found? ==> Truthy(o.v)
  {
    match FirstHeading(nodes, lbl)
    case None => Next
    case Some(i) =>
      match NextCell(nodes, i)
      case None => Abort
      case Some(j) =>
        var v := Convert(conv, CellValue(nodes[j]));
        if Truthy(v) then Found(v) else Next
  }

  /**
   * `get_wikipedia_field(infobox, labels, parse_function)` on the untouched table: the first
   * truthy value; `None` when no label gives one, and when the exception handler catches.
   */
  function LegacyField(nodes: seq<Node>, labels: seq<string>, conv: Converter): (v: PyValue)
    ensures v == PyNone || Truthy(v)
  {
    if labels == [] then PyNone
    else
      match LabelStep(nodes, labels[0], conv)
      case Found(v) => v
      case Abort => PyNone
      case Next => LegacyField(nodes, labels[1..], conv)
  }

  /** Every label whose heading is present has a data cell after it, so the lookup never fails. */
  predicate NoDanglingHeading(nodes: seq<Node>, labels: seq<string>) {
    forall k :: 0 <= k < |labels| && FirstHeading(nodes, labels[k]).Some? ==>
      NextCell(nodes, FirstHeading(nodes, labels[k]).value).Some?
  }

  /** Without conversion and without a dangling heading, the legacy lookup finds what `_find_field` finds. */
  lemma {:induction false} LegacyFieldAgrees(nodes: seq<Node>, labels: seq<string>)
    requires NoDanglingHeading(nodes, labels)
    ensures LegacyField(nodes, labels, NoConversion) == if Field(nodes, labels) == "" then PyNone else PyStr(Field(nodes, labels))
  {
    if labels != [] {
      var rest := labels[1..];
      assert NoDanglingHeading(nodes, rest) by {
        forall k | 0 <= k < |rest| && FirstHeading(nodes, rest[k]).Some?
          ensures NextCell(nodes, FirstHeading(nodes, rest[k]).value).Some?
        {
          assert rest[k] == labels[k + 1];
        }
      }
      LegacyFieldAgrees(nodes, rest);
      FieldStep(nodes, labels);
      LegacyFieldStep(nodes, labels);
    } else {
      assert Field(nodes, labels) == "";
    }
  }

  /** Without conversion, the legacy lookup returns the first label's text, or goes on to the next label. */
  lemma LegacyFieldStep(nodes: seq<Node>, labels: seq<string>)
    requires labels != [] && NoDanglingHeading(nodes, labels)
    ensures LegacyField(nodes, labels, NoConversion)
         == if FieldValue(nodes, labels[0]) != "" then PyStr(FieldValue(nodes, labels[0])) else LegacyField(nodes, labels[1..], NoConversion)
  {
    assert FirstHeading(nodes, labels[0]).Some? ==> NextCell(nodes, FirstHeading(nodes, labels[0]).value).Some?;
    LabelStepWithoutConversion(nodes, labels[0]);
  }

  /** Without conversion, one label is found exactly when it yields text for `_find_field`. */
  lemma LabelStepWithoutConversion(nodes: seq<Node>, lbl: string)
    requires FirstHeading(nodes, lbl).Some? ==> NextCell(nodes, FirstHeading(nodes, lbl).value).Some?
    ensures LabelStep(nodes, lbl, NoConversion) == if FieldValue(nodes, lbl) != "" then Found(PyStr(FieldValue(nodes, lbl))) else Next
  {
  }

  /** `_find_field` takes the first label's value unless it is empty. */
  lemma FieldStep(nodes: seq<Node>, labels: seq<string>)
    requires labels != []
    ensures Field(nodes, labels) == if FieldValue(nodes, labels[0]) != "" then FieldValue(nodes, labels[0]) else Field(nodes, labels[1..])
  {
    var vs := LabelValues(nodes, labels);
    assert vs[1..] == LabelValues(nodes, labels[1..]);
  }

  /** A zero area or population counts as not found: a later label is tried, and `None` results when none is left. */
  lemma LegacyZeroNotFound(nodes: seq<Node>, lbl: string, conv: Converter)
    requires FirstHeading(nodes, lbl).Some? && NextCell(nodes, FirstHeading(nodes, lbl).value).Some?
    requires Convert(conv, CellValue(nodes[NextCell(nodes, FirstHeading(nodes, lbl).value).value])) in {PyInt(0), PyFloat(0.0)}
    ensures LegacyField(nodes, [lbl], conv) == PyNone
  {
    assert [lbl][1..] == [];
  }

  /**
   * `get_wikipedia_field(infobox, field_names, parse_function)` as the script runs it on a
   * table (`null` for a page without one, where `infobox.find` raises and `None` results).
   */
  method GetWikipediaField(box: Infobox?, fieldNames: FieldNames, conv: Converter) returns (v: PyValue)
    modifies box
    ensures box == null ==> v == PyNone
    ensures box != null ==> v == LegacyField(old(box.nodes), AsList(fieldNames), conv)
    ensures box != null ==> CleanedFrom(old(box.nodes), box.nodes)
  {
    if box == null {
      return PyNone;
    }
    var labels := AsList(fieldNames);
    ghost var orig := box.nodes;
    for k := 0 to |labels|
      invariant CleanedFrom(orig, box.nodes)
      invariant LegacyField(orig, labels, conv) == LegacyField(orig, labels[k..], conv)
    {
      assert labels[k..][0] == labels[k] && labels[k..][1..] == labels[k + 1..];
      var step := TryLabel(box, labels[k], conv, orig);
      match step
      case Found(value) => return value;
      case Abort => return PyNone;
      case Next =>
    }
    assert labels[|labels|..] == [];
    v := PyNone;
  }

  /** The body of the loop of `get_wikipedia_field` for one label. */
  method TryLabel(box: Infobox, lbl: string, conv: Converter, ghost orig: seq<Node>) returns (o: Step)
    requires CleanedFrom(orig, box.nodes)
    modifies box
    ensures CleanedFrom(orig, box.nodes)
    ensures o == LabelStep(orig, lbl, conv)
  {
    SameHeadingsSameFirst(orig, box.nodes, lbl);
    var th := FirstHeading(box.nodes, lbl);
    if th.None? {
      return Next;
    }
    SameCellsSameNext(orig, box.nodes, th.value);
    var td := NextCell(box.nodes, th.value);
    if td.None? {
      // extract_text_from_element(None) gives "", and `None.find_all` raises
      return Abort;
    }
    ghost var before := box.nodes;
    var text := ExtractText(box, td.value);
    if text == "" {
      ExtractionRepeatable(before[td.value]);
      var again := ExtractText(box, td.value);
      assert again == text;
      var links := box.nodes[td.value].links;
      if |links| > 0 {
        text := Strip(links[0].text);
      }
    }
    assert text == CellValue(before[td.value]);
    CleanedFromStep(orig, before, td.value);
    if before[td.value] != orig[td.value] {
      CellValueAfterCleaning(orig[td.value]);
    }
    var value := Convert(conv, text);
    o := if Truthy(value) then Found(value) else Next;
  }

  /** `extract_text_from_element(td)`: a second call on the same cell gives the same text and changes nothing. */
  method ExtractText(box: Infobox, j: nat) returns (text: string)
    requires j < |box.nodes| && box.nodes[j].Td?
    modifies box
    ensures box.nodes == old(box.nodes)[j := Decomposed(old(box.nodes)[j])]
    ensures text == CleanText(old(box.nodes)[j].fragments)
    ensures old(box.nodes)[j] == Decomposed(old(box.nodes)[j]) ==> box.nodes == old(box.nodes)
  {
    text := box.CleanCell(j);
  }

  /** Removing footnote markers twice is removing them once, and the text is the same. */
  lemma ExtractionRepeatable(n: Node)
    requires n.Td?
    ensures Decomposed(Decomposed(n)) == Decomposed(n)
    ensures CleanText(Decomposed(n).fragments) == CleanText(n.fragments)
  {
    DecomposedTwice(n);
    CleanTextTwice(n.fragments);
  }

  /** The base URL of `generate_country_urls`. */
  const BaseUrl: string := "https://en.wikipedia.org/wiki/"

  /** The record has a `"name"` entry holding a string. */
  predicate HasStringName(d: map<string, PyValue>) {
    "name" in d && d["name"].PyStr?
  }

  /** What `base_url + d["name"]` raises for a record without a string name. */
  function ConcatError(d: map<string, PyValue>): PyError
    requires !HasStringName(d)
  {
    if "name" !in d then KeyError("name") else TypeError
  }

  /** What `d["name"].lower()` raises for a record without a string name. */
  function LowerError(d: map<string, PyValue>): PyError
    requires !HasStringName(d)
  {
    if "name" !in d then KeyError("name") else AttributeError
  }

  /**
   * `generate_country_urls(countries)`: the base URL followed by the name, as it is. The first
   * record without a string name stops it with `KeyError` (no entry) or `TypeError` (`str + ...`).
   */
  function CountryUrls(countries: seq<map<string, PyValue>>): (r: Result<seq<string>, PyError>)
    ensures r.Success? <==> forall k :: 0 <= k < |countries| ==> HasStringName(countries[k])
    ensures r.Success? ==> |r.value| == |countries|
    ensures r.Success? ==> forall k :: 0 <= k < |countries| ==>
      (HasStringName(countries[k]) && |r.value[k]| == |BaseUrl| + |countries[k]["name"].s|
       && r.value[k][..|BaseUrl|] == BaseUrl && r.value[k][|BaseUrl|..] == countries[k]["name"].s)
  {
    if countries == [] then Success([])
    else if !HasStringName(countries[0]) then Failure(ConcatError(countries[0]))
    else
      match CountryUrls(countries[1..])
      case Failure(e) => Failure(e)
      case Success(rest) => Success([BaseUrl + countries[0]["name"].s] + rest)
  }

  /** The name of every record, where all have one. */
  function NamesOf(countries: seq<map<string, PyValue>>): (names: seq<string>)
    requires forall k :: 0 <= k < |countries| ==> HasStringName(countries[k])
    ensures |names| == |countries|
    ensures forall k :: 0 <= k < |countries| ==> HasStringName(countries[k]) && names[k] == countries[k]["name"].s
  {
    seq(|countries|, k requires 0 <= k < |countries| && HasStringName(countries[k]) => countries[k]["name"].s)
  }

  /** For names without spaces the legacy addresses are those of parse_algorithm/parser.py. */
  lemma UrlsAgreeWithoutSpaces(countries: seq<map<string, PyValue>>)
    requires forall k :: 0 <= k < |countries| ==> HasStringName(countries[k]) && ' ' !in countries[k]["name"].s
    ensures CountryUrls(countries) == Success(Parser.CountryUrls(NamesOf(countries)))
  {
    var r := CountryUrls(countries);
    assert r.Success?;
    var legacy := r.value;
    var current := Parser.CountryUrls(NamesOf(countries));
    assert |legacy| == |current|;
    forall k | 0 <= k < |countries| ensures legacy[k] == current[k] {
      var n := countries[k]["name"].s;
      UrlAgrees(n);
      SplitAt(legacy[k], |BaseUrl|);
      SplitAt(current[k], |BaseUrl|);
    }
    assert legacy == current;
  }

  lemma UrlAgrees(n: string)
    requires ' ' !in n
    ensures Parser.Underscored(n) == n
  {
    assert forall i :: 0 <= i < |n| ==> n[i] != ' ';
  }

  lemma SplitAt(s: string, i: nat)
    requires i <= |s|
    ensures s == s[..i] + s[i..]
  {
  }

  /** One value of the dict: `None` and `""` become `"N/A"`, anything else is kept. */
  function BlankToNA(v: PyValue): (r: PyValue)
    ensures r != PyNone && r != PyStr("")
    ensures v == PyNone || v == PyStr("") ==> r == PyStr("N/A")
    ensures v != PyNone && v != PyStr("") ==> r == v
  {
    if v == PyNone || v == PyStr("") then PyStr("N/A") else v
  }

  /** The dict with its `None` and `""` values replaced by `"N/A"`. */
  function MarkMissing(m: map<string, PyValue>): (r: map<string, PyValue>)
    ensures r.Keys == m.Keys
    ensures forall k :: k in m ==> r[k] == BlankToNA(m[k])
  {
    map k | k in m :: BlankToNA(m[k])
  }

  /** `float(v) if v != "N/A" else None`; a string converts when it is a plain decimal numeral. */
  function ToFloat(v: PyValue): (r: Result<PyValue, PyError>)
    ensures r.Success? ==> r.value.PyNone? || r.value.PyFloat?
    ensures r.Success? && r.value.PyNone? <==> v == PyStr("N/A")
    ensures v.PyNone? ==> r == Failure(TypeError)
    ensures v.PyFloat? ==> r == Success(v)
    ensures v.PyInt? ==> r == Success(PyFloat(v.i as real))
    ensures v.PyStr? && v.s != "N/A" && IsNumeral(v.s) && Count(v.s, '.') <= 1 ==> r == Success(PyFloat(DecimalValue(v.s)))
    ensures v.PyStr? && v.s != "N/A" && !(IsNumeral(v.s) && Count(v.s, '.') <= 1) ==> r == Failure(ValueError)
  {
    match v
    case PyNone => Failure(TypeError)
    case PyStr(s) =>
      if s == "N/A" then Success(PyNone)
      else if IsNumeral(s) && Count(s, '.') <= 1 then Success(PyFloat(DecimalValue(s)))
      else Failure(ValueError)
    case PyFloat(f) => Success(PyFloat(f))
    case PyInt(i) => Success(PyFloat(i as real))
  }

  /** `int(v) if v != "N/A" else None`; a float is truncated, a string converts when it is all digits. */
  function ToInt(v: PyValue): (r: Result<PyValue, PyError>)
    ensures r.Success? ==> r.value.PyNone? || r.value.PyInt?
    ensures r.Success? && r.value.PyNone? <==> v == PyStr("N/A")
    ensures v.PyNone? ==> r == Failure(TypeError)
    ensures v.PyFloat? ==> r == Success(PyInt(Truncate(v.f)))
    ensures v.PyInt? ==> r == Success(v)
    ensures v.PyStr? && v.s != "N/A" && |v.s| > 0 && AllDigits(v.s) ==> r == Success(PyInt(DigitsValue(v.s)))
    ensures v.PyStr? && v.s != "N/A" && !(|v.s| > 0 && AllDigits(v.s)) ==> r == Failure(ValueError)
  {
    match v
    case PyNone => Failure(TypeError)
    case PyStr(s) =>
      if s == "N/A" then Success(PyNone)
      else if |s| > 0 && AllDigits(s) then Success(PyInt(DigitsValue(s)))
      else Failure(ValueError)
    case PyFloat(f) => Success(PyInt(Truncate(f)))
    case PyInt(i) => Success(PyInt(i))
  }

  /** A plain decimal numeral is one run of `[\d,.]` without commas, so `_parse_number` reads all of it. */
  lemma NumeralReadsWhole(s: string)
    requires IsNumeral(s)
    ensures RawNumber(s) == Some(s)
  {
    assert FindRun(s) == Some(Span(0, |s|));
    assert s[0..|s|] == s;
    RemoveCommasKeepsCommaFree(s);
  }

  /** Where `float(s)` accepts a numeral, it agrees with `_parse_number` of the same text. */
  lemma ToFloatAgreesWithParseNumber(s: string)
    requires s != "N/A" && IsNumeral(s) && Count(s, '.') <= 1
    ensures ParseNumber(s).Some? && ToFloat(PyStr(s)) == Success(PyFloat(ParseNumber(s).value))
  {
    NumeralReadsWhole(s);
    ParseNumberOfRaw(s, s);
  }

  /** Where `int(s)` accepts a string of digits, it agrees with the whole part `_parse_number` reads. */
  lemma ToIntAgreesWithWholePart(s: string)
    requires s != "N/A" && |s| > 0 && AllDigits(s)
    ensures WholePart(s).Some? && ToInt(PyStr(s)) == Success(PyInt(WholePart(s).value))
  {
    assert IsNumeral(s);
    NumeralReadsWhole(s);
    assert Count(s, '.') == 0;
    assert WholeDigits(s) == s;
  }

  /** The dict `clean_data` leaves behind, and the exception it raises, if any. */
  datatype Outcome = Outcome(items: map<string, PyValue>, error: Option<PyError>)

  /**
   * `clean_data(data)`: blanks become "N/A", then `area` and then `population` are converted
   * in place. A missing key or a failed conversion raises, with the earlier steps already done.
   */
  function CleanOutcome(m: map<string, PyValue>): (o: Outcome)
    ensures o.items.Keys == m.Keys
    ensures forall k :: k in m && k != "area" && k != "population" ==> o.items[k] == BlankToNA(m[k])
    ensures "area" !in m ==> o.error == Some(KeyError("area"))
    ensures "area" in m && "population" !in m && ToFloat(BlankToNA(m["area"])).Success? ==> o.error == Some(KeyError("population"))
    ensures o.error.None? ==> "area" in m && "population" in m
    ensures o.error.None? ==> o.items["area"].PyNone? || o.items["area"].PyFloat?
    ensures o.error.None? ==> o.items["population"].PyNone? || o.items["population"].PyInt?
    ensures o.error.None? ==> (o.items["area"].PyNone? <==> BlankToNA(m["area"]) == PyStr("N/A"))
    ensures o.error.None? ==> (o.items["population"].PyNone? <==> BlankToNA(m["population"]) == PyStr("N/A"))
    ensures o.error.None? <==>
      "area" in m && "population" in m && ToFloat(BlankToNA(m["area"])).Success? && ToInt(BlankToNA(m["population"])).Success?
    ensures o.error.None? ==> o.items["area"] == ToFloat(BlankToNA(m["area"])).value
    ensures o.error.None? ==> o.items["population"] == ToInt(BlankToNA(m["population"])).value
  {
    var m1 := MarkMissing(m);
    if "area" !in m1 then Outcome(m1, Some(KeyError("area")))
    else
      match ToFloat(m1["area"])
      case Failure(e) => Outcome(m1, Some(e))
      case Success(area) =>
        var m2 := m1["area" := area];
        if "population" !in m2 then Outcome(m2, Some(KeyError("population")))
        else
          match ToInt(m2["population"])
          case Failure(e) => Outcome(m2, Some(e))
          case Success(population) => Outcome(m2["population" := population], None)
  }

  /** After cleaning, no key other than `area` and `population` holds `None` or `""`. */
  lemma CleanedHasNoBlanks(m: map<string, PyValue>)
    ensures forall k :: k in CleanOutcome(m).items && k != "area" && k != "population" ==>
      CleanOutcome(m).items[k] != PyNone && CleanOutcome(m).items[k] != PyStr("")
  {
  }

  /** Cleaning a cleaned dict again changes nothing. */
  lemma CleanIdempotent(m: map<string, PyValue>)
    requires CleanOutcome(m).error.None?
    ensures CleanOutcome(CleanOutcome(m).items) == CleanOutcome(m)
  {
    var c := CleanOutcome(m).items;
    var c2 := CleanOutcome(c).items;
    assert CleanOutcome(c).error.None?;
    assert c2.Keys == c.Keys;
    forall k | k in c ensures c2[k] == c[k] {
      if k == "area" || k == "population" {
      } else {
        assert c[k] == BlankToNA(m[k]);
      }
    }
    assert c2 == c;
  }

  /** A dict the script rewrites in place. */
  class Dict {
    var items: map<string, PyValue>

    constructor (items: map<string, PyValue>)
      ensures this.items == items
    {
      this.items := items;
    }
  }

  /** `clean_data(data)`: rewrites `data` and returns it, or raises. */
  method CleanData(data: Dict) returns (r: Result<Dict, PyError>)
    modifies data
    ensures data.items == CleanOutcome(old(data.items)).items
    ensures CleanOutcome(old(data.items)).error.None? ==> r == Success(data)
    ensures CleanOutcome(old(data.items)).error.Some? ==> r == Failure(CleanOutcome(old(data.items)).error.value)
  {
    ghost var m := data.items;
    var pending := data.items.Keys;
    while pending != {}
      invariant pending <= m.Keys && data.items.Keys == m.Keys
      invariant forall k :: k in m && k !in pending ==> data.items[k] == BlankToNA(m[k])
      invariant forall k :: k in pending ==> data.items[k] == m[k]
      decreases pending
    {
      var key :| key in pending;
      var value := data.items[key];
      if value == PyNone || value == PyStr("") {
        data.items := data.items[key := PyStr("N/A")];
      }
      pending := pending - {key};
    }
    assert data.items == MarkMissing(m);
    if "area" !in data.items {
      return Failure(KeyError("area"));
    }
    var area := ToFloat(data.items["area"]);
    if area.Failure? {
      return Failure(area.error);
    }
    data.items := data.items["area" := area.value];
    if "population" !in data.items {
      return Failure(KeyError("population"));
    }
    var population := ToInt(data.items["population"]);
    if population.Failure? {
      return Failure(population.error);
    }
    data.items := data.items["population" := population.value];
    r := Success(data);
  }

  /** `data["name"].lower()`, the key of `remove_duplicates`; records without a string name never get this far. */
  function LegacyKey(d: map<string, PyValue>): string {
    if HasStringName(d) then Lower(d["name"].s) else ""
  }

  /** Two records with string names share a key exactly when the names are equal ignoring case. */
  lemma LegacyKeyIgnoresCase(a: map<string, PyValue>, b: map<string, PyValue>)
    requires HasStringName(a) && HasStringName(b)
    ensures LegacyKey(a) == LegacyKey(b) <==> EqualIgnoringCase(a["name"].s, b["name"].s)
  {
    EqualIgnoringCaseIsLower(a["name"].s, b["name"].s);
  }

  /**
   * `remove_duplicates(data_list)`: the first record per lower-cased name, in input order;
   * the first record without a string name raises.
   */
  method RemoveDuplicates(dataList: seq<map<string, PyValue>>) returns (r: Result<seq<map<string, PyValue>>, PyError>)
    ensures r.Success? <==> forall k :: 0 <= k < |dataList| ==> HasStringName(dataList[k])
    ensures r.Success? ==> r.value == FirstByKey(dataList, LegacyKey)
    ensures r.Failure? ==>
      exists k :: 0 <= k < |dataList| && !HasStringName(dataList[k]) && r.error == LowerError(dataList[k])
        && forall j :: 0 <= j < k ==> HasStringName(dataList[j])
  {
    var unique: seq<map<string, PyValue>> := [];
    var seen: set<string> := {};
    for k := 0 to |dataList|
      invariant forall j :: 0 <= j < k ==> HasStringName(dataList[j])
      invariant unique == FirstByKey(dataList[..k], LegacyKey)
      invariant seen == KeySet(unique, LegacyKey)
      invariant DistinctKeys(unique, LegacyKey)
    {
      var data := dataList[k];
      if !HasStringName(data) {
        return Failure(LowerError(data));
      }
      var name := Lower(data["name"].s);
      assert dataList[..k + 1] == dataList[..k] + [data];
      RemoveDuplicatesStep(dataList[..k], unique, data);
      if name !in seen {
        seen := seen + {name};
        unique := unique + [data];
      }
    }
    assert dataList[..|dataList|] == dataList;
    r := Success(unique);
  }

  /** One record of `remove_duplicates`: kept, with its key now seen, exactly when its key was not seen yet. */
  lemma RemoveDuplicatesStep(done: seq<map<string, PyValue>>, unique: seq<map<string, PyValue>>, data: map<string, PyValue>)
    requires unique == FirstByKey(done, LegacyKey) && DistinctKeys(unique, LegacyKey)
    ensures LegacyKey(data) in KeySet(unique, LegacyKey) ==> FirstByKey(done + [data], LegacyKey) == unique
    ensures LegacyKey(data) !in KeySet(unique, LegacyKey) ==>
      (FirstByKey(done + [data], LegacyKey) == unique + [data]
       && KeySet(unique + [data], LegacyKey) == KeySet(unique, LegacyKey) + {LegacyKey(data)}
       && DistinctKeys(unique + [data], LegacyKey))
  {
    FirstByKeySnoc(done, data, LegacyKey);
    if LegacyKey(data) !in KeySet(unique, LegacyKey) {
      KeySetSnoc(unique, data, LegacyKey);
      DistinctSnoc(unique, data, LegacyKey);
    }
  }

  lemma DistinctSnoc<T>(s: seq<T>, x: T, key: T -> string)
    requires DistinctKeys(s, key) && key(x) !in KeySet(s, key)
    ensures DistinctKeys(s + [x], key)
  {
    var t := s + [x];
    forall i, j | 0 <= i < j < |t| ensures key(t[i]) != key(t[j]) {
      assert t[i] == s[i];
      if j < |s| {
        assert t[j] == s[j];
      }
    }
  }
}
