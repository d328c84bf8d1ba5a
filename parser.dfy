/**
 * Record assembly and post-processing of parse_algorithm/parser.py: `CountryData`,
 * `parse_infobox`, `generate_country_urls` and `deduplicate_countries`.
 */
module Parser {
  import opened Wrappers
  import opened Text
  import opened Extraction
  import opened Numbers
  import opened Dedupe

  /** One country's record; `None` where the infobox gave nothing. */
  datatype CountryData = CountryData(
    name: string,
    capital: Option<string>,
    area: Option<real>,
    population: Option<int>,
    timeZone: Option<string>,
    currency: Option<string>,
    code: Option<string>)

  /**
   * A parsed article page: the strings of its `h1#firstHeading` element, when there is one,
   * the elements of its `table.infobox`, when there is one, and the page elements after
   * that table, which `find_next("td")` may reach.
   */
  datatype Page = Page(heading: Option<seq<Fragment>>, infobox: Option<seq<Node>>, later: seq<Node>)

  /** The `ValueError` raised for a page without an infobox. */
  datatype ParseError = InfoboxNotFound

  const CapitalLabels: seq<string> := ["Capital", "Largest city"]
  const AreaLabels: seq<string> := ["Total area", "Area"]
  const PopulationLabels: seq<string> := ["Population", "2022 estimate", "2023 estimate"]
  const TimeZoneLabels: seq<string> := ["Time zone", "Timezones", "Time zone(s)"]
  const CurrencyLabels: seq<string> := ["Currency", "Currencies"]
  const CodeLabels: seq<string> := ["ISO code", "ISO 3166 code", "ISO 3166-1 alpha-3"]

  /** Python's `text or None`: the empty string is falsy. */
  function NonEmpty(s: string): (r: Option<string>)
    ensures r.None? <==> s == ""
    ensures r.Some? ==> r.value == s
  {
    if s == "" then None else Some(s)
  }

  /** `_clean_text(soup.find("h1", ...))`: "" when the page has no such heading. */
  function HeadingText(heading: Option<seq<Fragment>>): (r: string)
    ensures heading.None? ==> r == ""
    ensures IsTrimmed(r)
  {
    match heading
    case None => ""
    case Some(fs) => CleanText(fs)
  }

  /** `name_hint or _clean_text(...)`. */
  function PageName(heading: Option<seq<Fragment>>, nameHint: Option<string>): (r: string)
    ensures nameHint.Some? && nameHint.value != "" ==> r == nameHint.value
    ensures nameHint.None? || nameHint.value == "" ==> r == HeadingText(heading)
  {
    if nameHint.Some? && nameHint.value != "" then nameHint.value else HeadingText(heading)
  }

  /** `int(_parse_number(text))`, or `None`. */
  function PopulationOf(text: string): (r: Option<int>)
    ensures r.None? <==> ParseNumber(text).None?
    ensures r.Some? ==> r == WholePart(text) && r.value >= 0
  {
    match ParseNumber(text)
    case None => None
    case Some(x) =>
      TruncateKeepsWholeDigits(text);
      Some(Truncate(x))
  }

  /** The record `parse_infobox` builds from the infobox `nodes`, each field looked up on the untouched table. */
  function Record(nodes: seq<Node>, name: string): (r: CountryData)
    ensures r.name == name
    ensures r.capital.None? <==> forall k :: 0 <= k < |CapitalLabels| ==> FieldValue(nodes, CapitalLabels[k]) == ""
    ensures r.area == ParseNumber(Field(nodes, AreaLabels))
    ensures r.population.None? <==> ParseNumber(Field(nodes, PopulationLabels)).None?
    ensures r.code.Some? ==> r.code.value == Field(nodes, CodeLabels) && r.code.value in LabelValues(nodes, CodeLabels)
  {
    CountryData(
      name,
      NonEmpty(Field(nodes, CapitalLabels)),
      ParseNumber(Field(nodes, AreaLabels)),
      PopulationOf(Field(nodes, PopulationLabels)),
      NonEmpty(Field(nodes, TimeZoneLabels)),
      NonEmpty(Field(nodes, CurrencyLabels)),
      NonEmpty(Field(nodes, CodeLabels)))
  }

  /** What `parse_infobox(html, name_hint)` returns or raises. */
  function InfoboxRecord(page: Page, nameHint: Option<string>): (r: Result<CountryData, ParseError>)
    ensures r.Failure? <==> page.infobox.None?
    ensures r.Success? ==> r.value.name == PageName(page.heading, nameHint)
    ensures r.Success? ==> r.value.capital != Some("") && r.value.timeZone != Some("")
    ensures r.Success? ==> r.value.currency != Some("") && r.value.code != Some("")
    ensures r.Success? && r.value.area.Some? ==> r.value.area.value >= 0.0
    ensures r.Success? && r.value.population.Some? ==>
      r.value.population == WholePart(Field(Document(page.infobox.value, page.later), PopulationLabels))
  {
    match page.infobox
    case None => Failure(InfoboxNotFound)
    case Some(nodes) => Success(Record(Document(nodes, page.later), PageName(page.heading, nameHint)))
  }

  /** A text field is present exactly when one of its labels yields text, and then it is that text. */
  lemma TextFieldPresent(nodes: seq<Node>, labels: seq<string>, k: nat)
    requires k < |labels| && FieldValue(nodes, labels[k]) != ""
    requires forall j :: 0 <= j < k ==> FieldValue(nodes, labels[j]) == ""
    ensures NonEmpty(Field(nodes, labels)) == Some(FieldValue(nodes, labels[k]))
  {
    FieldIsFirstYielding(nodes, labels, k);
  }

  /** A text field is `None` exactly when none of its labels yields text. */
  lemma TextFieldAbsent(nodes: seq<Node>, labels: seq<string>)
    ensures NonEmpty(Field(nodes, labels)).None? <==> forall k :: 0 <= k < |labels| ==> FieldValue(nodes, labels[k]) == ""
  {
  }

  /**
   * `parse_infobox` as the program runs it: the lookups share one table, and each removes
   * the footnote markers of the cell it reads. The outcome is the record of the untouched table.
   */
  method ParseInfobox(page: Page, nameHint: Option<string>) returns (r: Result<CountryData, ParseError>)
    ensures r == InfoboxRecord(page, nameHint)
  {
    if page.infobox.None? {
      return Failure(InfoboxNotFound);
    }
    var orig := Document(page.infobox.value, page.later);
    var name := PageName(page.heading, nameHint);
    var box := new Infobox(orig);
    var capital := box.FindField(CapitalLabels);
    ghost var after1 := box.nodes;
    var area := box.FindField(AreaLabels);
    CleanedFromKeepsField(orig, after1, AreaLabels);
    ghost var after2 := box.nodes;
    CleanedFromTransitive(orig, after1, after2);
    var population := box.FindField(PopulationLabels);
    CleanedFromKeepsField(orig, after2, PopulationLabels);
    ghost var after3 := box.nodes;
    CleanedFromTransitive(orig, after2, after3);
    var timeZone := box.FindField(TimeZoneLabels);
    CleanedFromKeepsField(orig, after3, TimeZoneLabels);
    ghost var after4 := box.nodes;
    CleanedFromTransitive(orig, after3, after4);
    var currency := box.FindField(CurrencyLabels);
    CleanedFromKeepsField(orig, after4, CurrencyLabels);
    ghost var after5 := box.nodes;
    CleanedFromTransitive(orig, after4, after5);
    var code := box.FindField(CodeLabels);
    CleanedFromKeepsField(orig, after5, CodeLabels);
    r := Success(CountryData(
      name, NonEmpty(capital), ParseNumber(area), PopulationOf(population),
      NonEmpty(timeZone), NonEmpty(currency), NonEmpty(code)));
  }

  /** `WIKI_BASE`. */
  const WikiBase: string := "https://en.wikipedia.org/wiki/"

  /** `name.replace(" ", "_")`. */
  function Underscored(name: string): (r: string)
    ensures |r| == |name|
    ensures forall i :: 0 <= i < |name| ==> r[i] == if name[i] == ' ' then '_' else name[i]
  {
    seq(|name|, i requires 0 <= i < |name| => if name[i] == ' ' then '_' else name[i])
  }

  /** `name.replace("_", " ")`, the reverse replacement. */
  function Spaced(name: string): (r: string)
    ensures |r| == |name|
    ensures forall i :: 0 <= i < |name| ==> r[i] == if name[i] == '_' then ' ' else name[i]
  {
    seq(|name|, i requires 0 <= i < |name| => if name[i] == '_' then ' ' else name[i])
  }

  /** The underscored name has no space, and a name without `_` can be read back from it. */
  lemma UnderscoredRoundTrip(name: string)
    ensures ' ' !in Underscored(name)
    ensures '_' !in name ==> Spaced(Underscored(name)) == name
  {
    var u := Underscored(name);
    assert forall i :: 0 <= i < |u| ==> u[i] != ' ';
  }

  /** `generate_country_urls(names)`: one article address per name, in order. */
  function CountryUrls(names: seq<string>): (urls: seq<string>)
    ensures |urls| == |names|
    ensures forall i :: 0 <= i < |names| ==>
      |urls[i]| == |WikiBase| + |names[i]| && urls[i][..|WikiBase|] == WikiBase && urls[i][|WikiBase|..] == Underscored(names[i])
  {
    seq(|names|, i requires 0 <= i < |names| => WikiBase + Underscored(names[i]))
  }

  /** The mapping is not one-to-one: a space and an underscore give the same address. */
  lemma CountryUrlsCollide()
    ensures CountryUrls(["Sri Lanka"]) == CountryUrls(["Sri_Lanka"])
  {
    assert Underscored("Sri Lanka") == "Sri_Lanka";
    assert Underscored("Sri_Lanka") == "Sri_Lanka";
  }

  /** Two different names without `_` give different addresses. */
  lemma CountryUrlsDistinguish(a: string, b: string)
    requires '_' !in a && '_' !in b && a != b
    ensures CountryUrls([a]) != CountryUrls([b])
  {
    UnderscoredRoundTrip(a);
    UnderscoredRoundTrip(b);
    var ua, ub := CountryUrls([a])[0], CountryUrls([b])[0];
    assert Spaced(ua[|WikiBase|..]) == a;
    assert Spaced(ub[|WikiBase|..]) == b;
  }

  /** `c.name.lower()`, the key under which records are deduplicated. */
  function NameKey(c: CountryData): string {
    Lower(c.name)
  }

  /** Two records share a key exactly when their names are equal ignoring case. */
  lemma NameKeyIgnoresCase(a: CountryData, b: CountryData)
    ensures NameKey(a) == NameKey(b) <==> EqualIgnoringCase(a.name, b.name)
  {
    EqualIgnoringCaseIsLower(a.name, b.name);
  }

  /**
   * The `unique` dict of `deduplicate_countries` holds the records `kept`: `table` maps each
   * key to its record and `order` lists the keys in insertion order.
   */
  ghost predicate Tabulates(order: seq<string>, table: map<string, CountryData>, kept: seq<CountryData>) {
    |order| == |kept| && table.Keys == KeySet(kept, NameKey)
    && forall i :: 0 <= i < |order| ==> order[i] in table && table[order[i]] == kept[i]
  }

  lemma TabulatesSnoc(order: seq<string>, table: map<string, CountryData>, kept: seq<CountryData>, c: CountryData)
    requires Tabulates(order, table, kept) && NameKey(c) !in table
    ensures Tabulates(order + [NameKey(c)], table[NameKey(c) := c], kept + [c])
  {
    KeySetSnoc(kept, c, NameKey);
  }

  /**
   * `deduplicate_countries(countries)`: the dict is filled in one pass, and
   * `list(unique.values())` reads it in insertion order.
   */
  method DeduplicateCountries(countries: seq<CountryData>) returns (unique: seq<CountryData>)
    ensures unique == FirstByKey(countries, NameKey)
  {
    var order: seq<string> := [];
    var table: map<string, CountryData> := map[];
    for k := 0 to |countries|
      invariant Tabulates(order, table, FirstByKey(countries[..k], NameKey))
    {
      assert countries[..k + 1] == countries[..k] + [countries[k]];
      FirstByKeySnoc(countries[..k], countries[k], NameKey);
      var key := Lower(countries[k].name);
      if key !in table {
        TabulatesSnoc(order, table, FirstByKey(countries[..k], NameKey), countries[k]);
        table := table[key := countries[k]];
        order := order + [key];
      }
    }
    assert countries[..|countries|] == countries;
    unique := Values(order, table, FirstByKey(countries, NameKey));
  }

  /** `list(unique.values())`: the records in the order their keys were inserted. */
  method Values(order: seq<string>, table: map<string, CountryData>, ghost kept: seq<CountryData>)
    returns (values: seq<CountryData>)
    requires Tabulates(order, table, kept)
    ensures values == kept
  {
    values := [];
    for i := 0 to |order|
      invariant values == kept[..i]
    {
      values := values + [table[order[i]]];
    }
  }

  function Blank(name: string): CountryData {
    CountryData(name, None, None, None, None, None, None)
  }

  /** Records "A", "a", "B": the second one goes, as its lower-cased name was seen first. */
  lemma DeduplicateExample()
    ensures FirstByKey([Blank("A"), Blank("a"), Blank("B")], NameKey) == [Blank("A"), Blank("B")]
  {
    var s := [Blank("A"), Blank("a"), Blank("B")];
    assert Lower("A") == "a" && Lower("a") == "a" && Lower("B") == "b";
    assert s[..1] == [Blank("A")] && s[..2] == [Blank("A"), Blank("a")];
    assert FirstByKey(s[..1], NameKey) == [Blank("A")] by {
      assert s[..1][..0] == [];
    }
    assert KeySet([Blank("A")], NameKey) == {"a"};
    KeySetSnoc([Blank("A")], Blank("B"), NameKey);
  }
}
