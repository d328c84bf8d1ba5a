# Country infobox scraper, modelled in Dafny

The scraper reads a Wikipedia country article and turns its infobox table into a country
record. The model covers two versions of it.

`parse_algorithm/parser.py` is the current version. Its functions are:

- `_clean_text` and `_find_field`: the field lookup;
- `_parse_number`: the number scanner;
- `parse_infobox`: record assembly, producing `CountryData`;
- `generate_country_urls`;
- `deduplicate_countries`;
- `compute_stats`: the summary statistics.

`super_algorithm.py` is the older script. Its functions are:

- `get_wikipedia_field` and `extract_text_from_element`;
- `parse_area` and `parse_population`;
- `generate_country_urls`;
- `clean_data`;
- `remove_duplicates`.

The project has these modules:

- `Wrappers`: `Option` and `Result`.
- `Text`:
  - whitespace stripping, as `str.strip` and bs4's `get_text(strip=True)` do;
  - ASCII lower-casing;
  - the substring test.
- `Extraction`: the infobox as a sequence of elements in document order, made of heading
  cells and data cells. A data cell carries its text strings and the texts of its links, each
  marked when it lies inside a `<sup>`; removing the `<sup>` elements removes both. It contains:
  - the heading match `^\s*•?\s*label\s*$`, ignoring case;
  - `find_next("td")`, which does not stop at the end of the table: a lookup walks through the
    table's elements and then the data cells that follow the table on the page (`Document`);
  - the cleaning of a cell;
  - the lookup over several labels.

  The destructive removal of `<sup>` elements is a class, `Infobox`, whose `nodes` field
  the methods `CleanCell` and `FindField` update. They are proved equal to pure functions
  applied to the untouched table.
- `Numbers`: the first `\d[\d,.]*` run, its commas removed, and `float(...)` of it. Values
  are exact decimal values. Python's `int(...)` of the result keeps the digits before the point.
- `Dedupe`: "the first element per key, in input order". Both versions deduplicate by this
  rule, and the module proves its properties.
- `Parser`:
  - `CountryData`;
  - the page with its heading, its infobox and the elements after the infobox;
  - `parse_infobox`, both as a function and as the method that runs the six lookups on one
    shared mutable table;
  - the URL generator;
  - `deduplicate_countries`, a dict filled in one pass.
- `Statistics`: `compute_stats`, following Python's rules:
  - truthiness decides which records count;
  - `max` keeps the first record when several share the maximum;
  - in a dict comprehension the last record with a given name wins.
- `Legacy`: the older script. Its records are dicts from keys to Python values.
  - `get_wikipedia_field` is a method that loops over the labels. A matching heading with no
    data cell after it anywhere on the page makes the whole call return `None`.
  - `clean_data` rewrites its dict in place. A missing key or a failed conversion raises,
    and the changes already made stay.
  - `remove_duplicates` raises on the first record that has no string name.

Behaviour of the code that is easy to misread:

- **The statistics example of `compute_stats`.** On the records of tests/test_parser.py the
  top record is "Three", whose population 250 is the largest, and the average area over the
  "UTC+3" records "One" and "Two" is (100.0 + 300.0) / 2 = 200.0. The test expects these
  values, and `Statistics.StatsExample` proves them.
- **The URL mapping is not one-to-one.** "Sri Lanka" and "Sri_Lanka" give the same address
  (`Parser.CountryUrlsCollide`). It is one-to-one on names without `_`
  (`Parser.CountryUrlsDistinguish`).
- **The record name can be empty.** `name_hint or _clean_text(...)` falls back to the cleaned
  page heading, which is "" when the page has no heading and no hint is given
  (`Parser.PageName`).

## Model

| member | source | states |
|---|---|---|
| Text.Strip | parse_algorithm/parser.py:35 | the result has no whitespace at either end; it is empty exactly when the input is all whitespace; an already stripped string is unchanged |
| Text.StripKeepsMiddle | parse_algorithm/parser.py:35 | the stripped string is a stretch of the input with only whitespace before and after it |
| Text.IsSpace | parse_algorithm/parser.py:40 | the characters `\s` and `str.isspace()` accept, on ASCII |
| Text.Contains | parse_algorithm/parser.py:136 | Python's substring test `sub in s`: `sub` occurs at some position of `s` |
| Text.TrimmedConcat | parse_algorithm/parser.py:35 | joining stripped strings with no separator, as `get_text(strip=True)` does, gives a stripped string |
| Text.Lower | parse_algorithm/parser.py:118 | `str.lower()` keeps the length and lower-cases each character on its own |
| Text.EqualIgnoringCase | parse_algorithm/parser.py:40 | the comparison `re.I` makes: same length, and each pair of characters equal once lower-cased |
| Text.EqualIgnoringCaseIsLower | parse_algorithm/parser.py:40 | the case-insensitive comparison of `re.I` holds exactly when the lower-cased strings are equal |
| Extraction.WithoutSups | parse_algorithm/parser.py:33-34 | after the `<sup>` elements are removed, no string of the cell lies inside a `<sup>`, and none was added |
| Extraction.WithoutSupsConcat | parse_algorithm/parser.py:33-35 | removal works piece by piece, so the strings kept stay in order and keep their repeats, as `get_text` joins them |
| Extraction.RemoveSups | parse_algorithm/parser.py:33-34 | the loop over the cell's strings keeps exactly the strings outside a `<sup>` |
| Extraction.WithoutSupsMembers | parse_algorithm/parser.py:33-34 | the strings that remain are exactly the cell's strings outside a `<sup>` |
| Extraction.GetText | parse_algorithm/parser.py:35 | the cell text is stripped at both ends |
| Extraction.GetTextConcat | parse_algorithm/parser.py:35 | `get_text(strip=True)` of consecutive strings is the text of the first ones followed by that of the rest, with no separator |
| Extraction.GetTextSingle | parse_algorithm/parser.py:35 | the text of one string is that string, stripped |
| Extraction.NoSupsUnchanged | parse_algorithm/parser.py:33-34 | a cell without footnote markers is left as it is |
| Extraction.CleanText | parse_algorithm/parser.py:30-35 | `_clean_text` of a cell is stripped at both ends |
| Extraction.CleanTextConcat | parse_algorithm/parser.py:30-35 | the cleaned text of consecutive strings is that of the first ones followed by that of the rest |
| Extraction.CleanTextSingle | parse_algorithm/parser.py:30-35 | one string inside a `<sup>` cleans to "", and one outside it to the string stripped |
| Extraction.CleanTextTwice | parse_algorithm/parser.py:30-35 | cleaning is idempotent: cleaning a cleaned cell changes neither the cell nor its text |
| Extraction.Decomposed | parse_algorithm/parser.py:33-34 | a data cell after `sup.decompose()`: its strings and links outside a `<sup>`; a heading is unchanged |
| Extraction.DecomposedTwice | parse_algorithm/parser.py:33-34 | removing the `<sup>` elements of a cleaned cell, strings and links alike, changes nothing |
| Extraction.IsLeader | parse_algorithm/parser.py:40 | `^\s*•?\s*`: whitespace, at most one bullet, whitespace |
| Extraction.LabelAt | parse_algorithm/parser.py:40 | the leader, then the label ignoring case, then only whitespace to the end |
| Extraction.HeadingMatches | parse_algorithm/parser.py:40 | the heading matches the anchored pattern at some position of the label |
| Extraction.FirstHeading | parse_algorithm/parser.py:40 | `infobox.find("th", ...)` gives a matching heading with no matching heading before it, and none exactly when no heading of the table matches |
| Extraction.FirstHeadingFrom | parse_algorithm/parser.py:40 | `infobox.find("th", ...)` gives the first heading that matches the label, or none when no heading matches |
| Extraction.NextCell | parse_algorithm/parser.py:42 | `th.find_next("td")` gives a data cell after the heading with no data cell between them, and none exactly when no data cell follows |
| Extraction.NextCellFrom | parse_algorithm/parser.py:42 | `find_next("td")` gives the first data cell after the heading, or none when there is none |
| Extraction.CellsOnly | parse_algorithm/parser.py:42 | the elements after the table that `find_next("td")` can reach are data cells only |
| Extraction.CellsOnlyEmpty | parse_algorithm/parser.py:42 | no cell is kept exactly when no element after the table is a data cell |
| Extraction.CellsOnlyFirst | parse_algorithm/parser.py:42 | the first cell kept is the first data cell after the table |
| Extraction.Document | parse_algorithm/parser.py:40-42 | the elements a lookup walks through: the whole table first, then the cells after it |
| Extraction.DocumentKeepsHeadings | parse_algorithm/parser.py:40 | `infobox.find("th", ...)` stays inside the table: the cells after it never change the heading found |
| Extraction.DocumentNextCell | parse_algorithm/parser.py:42 | the cell found is the next one in the table, or, when the table has none after the heading, the first data cell after the table |
| Extraction.CellAfterTableExample | parse_algorithm/parser.py:40-48 | a heading that ends its table takes the value of the first data cell after the table, past a heading outside it |
| Extraction.CellValue | parse_algorithm/parser.py:44-48 | the cell value is stripped; it is the cleaned text when that is non-empty; otherwise it is the stripped text of the first link outside a `<sup>`, and "" when there is no such link |
| Extraction.FieldValue | parse_algorithm/parser.py:40-48 | what one label yields is stripped; it is "" when no heading matches or no data cell follows the heading, and otherwise the value of the data cell after the first matching heading |
| Extraction.FirstNonEmpty | parse_algorithm/parser.py:39-51 | the first non-empty value is "" exactly when every value is "", and otherwise one of the values |
| Extraction.FirstNonEmptyAt | parse_algorithm/parser.py:49-50 | the first non-empty value is the value at the first non-empty position |
| Extraction.FirstNonEmptySkipsEmpty | parse_algorithm/parser.py:39-51 | leading empty values do not change the first non-empty value |
| Extraction.LabelValues | parse_algorithm/parser.py:39 | the labels are tried one by one, in order |
| Extraction.Field | parse_algorithm/parser.py:38-51 | `_find_field` gives stripped text, and "" exactly when no label yields text |
| Extraction.FieldIsFirstYielding | parse_algorithm/parser.py:39-50 | the first label that yields text decides the field |
| Extraction.FieldSkipsBarrenLabels | parse_algorithm/parser.py:39-51 | labels tried first that yield nothing do not change the field |
| Extraction.LabelCaseIrrelevant | parse_algorithm/parser.py:40 | a heading matches a label exactly when it matches the same label in another case |
| Extraction.LabelCaseOneWay | parse_algorithm/parser.py:40 | a heading that matches a label also matches every label equal to it once lower-cased |
| Extraction.BulletedHeadingMatches | parse_algorithm/parser.py:40 | "• Capital" matches the label "Capital": one bullet and whitespace may come before the label |
| Extraction.LowerCaseHeadingMatches | parse_algorithm/parser.py:40 | "capital" matches the label "Capital" |
| Extraction.LongerHeadingDoesNotMatch | parse_algorithm/parser.py:40 | "Capital city" does not match "Capital": the pattern is anchored at both ends |
| Extraction.CleanedFrom | parse_algorithm/parser.py:33-34 | the table is the original with some of its cells decomposed and nothing else changed |
| Extraction.CleanedFromStep | parse_algorithm/parser.py:33-34 | cleaning one more cell keeps the table a cleaned form of the original |
| Extraction.CleanedFromTransitive | parse_algorithm/parser.py:33-34 | cleaning in several rounds is still cleaning of the original table |
| Extraction.CellValueAfterCleaning | parse_algorithm/parser.py:44-48 | a cell that was already cleaned gives the same value |
| Extraction.SameHeadingsSameFirst | parse_algorithm/parser.py:40 | tables whose headings match alike give the same first heading |
| Extraction.SameCellsSameNext | parse_algorithm/parser.py:42 | tables whose data cells sit at the same positions give the same next cell |
| Extraction.CleanedFromKeepsLookup | parse_algorithm/parser.py:40-48 | on a partly cleaned table a label yields what it yields on the original table |
| Extraction.CleanedFromKeepsField | parse_algorithm/parser.py:38-51 | on a partly cleaned table a lookup gives what it gives on the original table |
| Extraction.Infobox.constructor | parse_algorithm/parser.py:69 | the infobox holds the table's elements |
| Extraction.Infobox.CleanCell | parse_algorithm/parser.py:30-35 | `_clean_text(td)` decomposes the cell's `<sup>` elements in the tree, changes no other element, and returns the cleaned text |
| Extraction.Infobox.FindField | parse_algorithm/parser.py:38-51 | `_find_field` returns the field of the table as it was before the call, and leaves the table a cleaned form of it |
| Numbers.FirstDigitFrom | parse_algorithm/parser.py:57 | the scan stops at the first digit, skipping only non-digits |
| Numbers.RunEndFrom | parse_algorithm/parser.py:57 | the greedy `[\d,.]*` takes the longest stretch of digits, commas and points |
| Numbers.FindRun | parse_algorithm/parser.py:57 | `re.search(r"\d[\d,.]*", text)` finds nothing exactly when the text has no digit; otherwise it starts at the first digit and runs as far as the character class allows |
| Numbers.RemoveCommas | parse_algorithm/parser.py:60 | `.replace(",", "")` keeps every other character and no comma, and is shorter by exactly the number of commas |
| Numbers.RemoveCommasConcat | parse_algorithm/parser.py:60 | removal works piece by piece, so the remaining characters keep their order |
| Numbers.RemoveCommasKeepsCommaFree | parse_algorithm/parser.py:60 | a string without commas is unchanged |
| Numbers.RawNumber | parse_algorithm/parser.py:57-60 | the comma-stripped run is absent exactly when the text has no digit, and it is a numeral of digits and points that starts with a digit |
| Numbers.Count | parse_algorithm/parser.py:61-64 | a character is counted zero times exactly when it does not occur |
| Numbers.CountSingle | parse_algorithm/parser.py:61-64 | one character counts once when it is the one counted and not at all otherwise; with `CountConcat` this fixes every count |
| Numbers.DotIndex | parse_algorithm/parser.py:62 | gives the position of the first decimal point |
| Numbers.SingleDot | parse_algorithm/parser.py:62 | with at most one point, nothing after the first point is a point |
| Numbers.DigitsValue | parse_algorithm/parser.py:62 | the number a decimal digit string denotes, most significant digit first; its value is pinned by `DigitsValueConcat` and bounded by `DigitsBelowPow10` |
| Numbers.DigitsValueConcat | parse_algorithm/parser.py:62 | digits written after others shift the first ones left: the value of `a + b` is that of `a` times 10 to the length of `b`, plus that of `b` |
| Numbers.DigitsBelowPow10 | parse_algorithm/parser.py:62 | n digits denote a number below 10^n |
| Numbers.WholeDigits | parse_algorithm/parser.py:62 | the digits before the point are a non-empty prefix of the numeral |
| Numbers.FractionDigits | parse_algorithm/parser.py:62 | the digits after the point are digits only |
| Numbers.DecimalValue | parse_algorithm/parser.py:62 | `float(raw)` lies between the whole part and the whole part plus one |
| Numbers.DecimalValueExact | parse_algorithm/parser.py:62 | `float(raw)` exactly: multiplied by 10 to the number of fraction digits it is the whole number all the digits spell together, so "1234.5" is 12345 / 10 |
| Numbers.ParseNumber | parse_algorithm/parser.py:54-64 | `_parse_number` is `None` exactly when the text has no digit or its numeral has more than one point (where `float` raises); otherwise it is a non-negative value |
| Numbers.ParseNumberOfRaw | parse_algorithm/parser.py:60-62 | a numeral with at most one point reads as its decimal value |
| Numbers.Truncate | parse_algorithm/parser.py:77 | `int(x)` on a float rounds toward zero: it lies within one of `x`, on the side of zero |
| Numbers.WholePart | parse_algorithm/parser.py:77 | the whole part is absent exactly when the text has no digit, and is never negative |
| Numbers.TruncateKeepsWholeDigits | parse_algorithm/parser.py:77 | `int(_parse_number(text))` is the number written before the decimal point |
| Numbers.ParseNumberStopsAtRun | parse_algorithm/parser.py:57-62 | digits followed by a character that cannot continue the run read as exactly that number |
| Numbers.DecimalStringValue | parse_algorithm/parser.py:62 | the digits of a rendered natural number denote that number |
| Numbers.ParseRendered | parse_algorithm/parser.py:54-64 | round trip: `_parse_number(str(n)) == n` for every natural number |
| Numbers.CountConcat | parse_algorithm/parser.py:62 | the count of a character in a concatenation is the sum of the counts |
| Numbers.PointParts | parse_algorithm/parser.py:62 | a numeral with one point splits at that point into whole digits and fraction digits |
| Numbers.AreaExample | parse_algorithm/parser.py:54-64 | "1,234.5 km2" reads as 1234.5 |
| Numbers.AreaExampleRaw | parse_algorithm/parser.py:57-60 | the comma-stripped run of "1,234.5 km2" is "1234.5" |
| Numbers.TwoPointsExample | parse_algorithm/parser.py:61-64 | "1.2.3" gives `None`, because `float` raises |
| Numbers.NoDigitExample | parse_algorithm/parser.py:58-59 | "n/a" gives `None` |
| Dedupe.FirstByKey | parse_algorithm/parser.py:115-121 | keeping the first element per key never adds elements |
| Dedupe.KeySetSnoc | parse_algorithm/parser.py:119-120 | appending an element adds its key to the keys seen |
| Dedupe.FirstByKeyKeys | parse_algorithm/parser.py:115-121 | the kept elements have exactly the input's keys, each once |
| Dedupe.LastIsFirst | parse_algorithm/parser.py:119 | the last element is the first of its key exactly when its key was not kept before |
| Dedupe.FirstByKeyIsFirstOccurrences | parse_algorithm/parser.py:115-121 | the kept elements are exactly those at the first position of their key, in order |
| Dedupe.FirstByKeyIsSubsequence | parse_algorithm/parser.py:115-121 | the result keeps input order: it is a subsequence of the input |
| Dedupe.FirstByKeyOfDistinct | parse_algorithm/parser.py:115-121 | input with distinct keys is returned unchanged |
| Dedupe.FirstByKeyIdempotent | parse_algorithm/parser.py:115-121 | deduplicating twice is deduplicating once |
| Dedupe.FirstByKeySnoc | parse_algorithm/parser.py:117-120 | one more element is kept exactly when its key was not kept before |
| Parser.NonEmpty | parse_algorithm/parser.py:74 | `text or None` is `None` exactly when the text is "", and the text otherwise |
| Parser.HeadingText | parse_algorithm/parser.py:73 | the cleaned heading is stripped, and "" when the page has no heading |
| Parser.PageName | parse_algorithm/parser.py:73 | `name_hint or ...`: a non-empty hint wins, and otherwise the cleaned heading is used |
| Parser.PopulationOf | parse_algorithm/parser.py:76-77 | the population is `None` exactly when `_parse_number` is `None`, and otherwise the non-negative number written before the point |
| Parser.Record | parse_algorithm/parser.py:73-90 | the record carries the given name; the capital is `None` exactly when no capital label yields text; the area is `_parse_number` of the area field; the population is `None` exactly when that of its field is; a present code is the code field's text, the value of one of its labels |
| Parser.InfoboxRecord | parse_algorithm/parser.py:67-90 | `parse_infobox` raises exactly when the page has no infobox; otherwise the name follows the hint rule, no text field is "", the area is non-negative, and the population is the whole part of the population field |
| Parser.TextFieldPresent | parse_algorithm/parser.py:74 | a text field is the text of the first label that yields some |
| Parser.TextFieldAbsent | parse_algorithm/parser.py:74 | a text field is `None` exactly when no label yields text |
| Parser.ParseInfobox | parse_algorithm/parser.py:67-90 | the six lookups on one table, each cleaning the cell it reads, give the record of the untouched table |
| Parser.Underscored | parse_algorithm/parser.py:112 | `name.replace(" ", "_")` keeps the length and replaces each space, and nothing else |
| Parser.Spaced | parse_algorithm/parser.py:112 | the reverse replacement, `_` to space |
| Parser.UnderscoredRoundTrip | parse_algorithm/parser.py:112 | the address part has no space; a name without `_` is recovered from it |
| Parser.CountryUrls | parse_algorithm/parser.py:111-112 | one address per name, in order: `WIKI_BASE` followed by the underscored name |
| Parser.CountryUrlsCollide | parse_algorithm/parser.py:112 | "Sri Lanka" and "Sri_Lanka" give the same address |
| Parser.CountryUrlsDistinguish | parse_algorithm/parser.py:112 | two different names without `_` give different addresses |
| Parser.NameKey | parse_algorithm/parser.py:118 | the dict key of a record: its lower-cased name |
| Parser.NameKeyIgnoresCase | parse_algorithm/parser.py:118 | two records share a key exactly when their names are equal ignoring case |
| Parser.TabulatesSnoc | parse_algorithm/parser.py:119-120 | a new key inserted into the dict keeps it in step with the records kept so far |
| Parser.DeduplicateCountries | parse_algorithm/parser.py:115-121 | `deduplicate_countries` gives the first record per lower-cased name, in input order |
| Parser.Values | parse_algorithm/parser.py:121 | `list(unique.values())` lists the records in key-insertion order |
| Parser.DeduplicateExample | tests/test_parser.py:31-38 | records "A", "a", "B" deduplicate to "A", "B" |
| Statistics.HasPopulation | parse_algorithm/parser.py:126 | `c.population` is truthy: present and non-zero |
| Statistics.TopIndex | parse_algorithm/parser.py:126-127 | the top record is absent exactly when no record has a truthy population; otherwise it has one, it is at least every other one, and it is strictly greater than every earlier one |
| Statistics.HasCapital | parse_algorithm/parser.py:129 | `c.capital` is truthy: present and non-empty |
| Statistics.Capitals | parse_algorithm/parser.py:129 | a name is in the capitals dict exactly when some record of that name has a truthy capital |
| Statistics.CapitalsLastWins | parse_algorithm/parser.py:129 | the capital reported for a name is that of the last record of that name that has one |
| Statistics.InZoneWithArea | parse_algorithm/parser.py:132 | the record's time zone is the target and its area is truthy |
| Statistics.ZoneAreas | parse_algorithm/parser.py:132 | the areas averaged are exactly the truthy areas of the records in the target zone |
| Statistics.ZoneAreasAppend | parse_algorithm/parser.py:132-134 | the areas of a concatenation are those of each part in turn, so order and repeats are kept, as the mean needs |
| Statistics.AverageArea | parse_algorithm/parser.py:130-134 | the average is `None` exactly when the target is missing or empty or no record qualifies |
| Statistics.Sum | parse_algorithm/parser.py:134 | `sum(filtered)`: 0.0 for no values, each value added in list order |
| Statistics.SumConcat | parse_algorithm/parser.py:134 | the sum of two runs of values one after the other is the sum of their sums |
| Statistics.SumBounds | parse_algorithm/parser.py:134 | a sum of values between lo and hi lies between n·lo and n·hi |
| Statistics.MeanOfBounded | parse_algorithm/parser.py:134 | dividing such a sum by n gives a value between lo and hi |
| Statistics.AverageAreaBetween | parse_algorithm/parser.py:130-134 | the average lies between the smallest and the largest area averaged |
| Statistics.IsEuro | parse_algorithm/parser.py:136 | `c.currency` is truthy and contains "euro" once lower-cased |
| Statistics.EuroCountries | parse_algorithm/parser.py:136 | a name is listed exactly when some record of that name has a currency containing "euro", ignoring case |
| Statistics.EuroCountriesAppend | parse_algorithm/parser.py:136 | the filter keeps input order |
| Statistics.Names | parse_algorithm/parser.py:139 | every record's name, in order |
| Statistics.ComputeStats | parse_algorithm/parser.py:124-144 | the names are listed in order; the top record is absent exactly when no population is truthy, and otherwise it is an input record with the largest population; empty input gives empty results |
| Statistics.StatsExample | tests/test_parser.py:41-51 | the test's records give top "Three", average 200.0, euro countries "One" and "Three", and capital "Cap1" for "One" |
| Statistics.ExampleTop | tests/test_parser.py:48 | the top record of the test is "Three" |
| Statistics.ExampleAverage | tests/test_parser.py:49 | the average area of the test is 200.0 |
| Statistics.ExampleAreas | tests/test_parser.py:49 | the areas averaged in the test are 100.0 and 300.0 |
| Statistics.ExampleEuro | tests/test_parser.py:50 | the euro countries of the test are "One" and "Three" |
| Statistics.ExampleCapitals | tests/test_parser.py:51 | the capital of "One" in the test is "Cap1" |
| Statistics.EuroIsEuro | parse_algorithm/parser.py:136 | the currency "Euro" counts as euro |
| Statistics.DollarIsNotEuro | parse_algorithm/parser.py:136 | the currency "Dollar" does not |
| Legacy.AsList | super_algorithm.py:45-46 | a single label string is looked up as a one-element list |
| Legacy.ParseArea | super_algorithm.py:85-90 | `parse_area` is the float that `_parse_number` reads, and 0 where that gives `None` |
| Legacy.ParsePopulation | super_algorithm.py:92-97 | `parse_population` is a non-negative int: 0 when there is no digit or the run has a point (where `int` raises), otherwise the number the run denotes |
| Legacy.PopulationsAgree | super_algorithm.py:92-97 | where the run has no point, the legacy population equals the current one |
| Legacy.PopulationsDifferOnPoint | super_algorithm.py:92-97 | on "1,234.5 km2" the current parser reads 1234 while the legacy one gives 0 |
| Legacy.Truthy | super_algorithm.py:69 | Python's truth value: `None`, "", 0 and 0.0 are false |
| Legacy.Convert | super_algorithm.py:66-67 | no conversion keeps the text; the area conversion gives a float exactly when `_parse_number` reads a number; the population conversion gives a non-negative int; either conversion of "" is falsy |
| Legacy.LabelStep | super_algorithm.py:50-70 | one label gives a truthy converted value, or nothing, or the exception of a heading without a data cell |
| Legacy.LegacyField | super_algorithm.py:43-74 | `get_wikipedia_field` gives `None` or a truthy value |
| Legacy.LegacyFieldAgrees | super_algorithm.py:43-74 | without conversion and without a heading lacking its data cell, the legacy lookup gives what `_find_field` gives, with "" as `None` |
| Legacy.LabelStepWithoutConversion | super_algorithm.py:50-70 | without conversion, one label gives its text exactly when `_find_field`'s lookup of it is non-empty |
| Legacy.FieldStep | parse_algorithm/parser.py:39-50 | `_find_field` takes the first label's value unless it is empty |
| Legacy.LegacyZeroNotFound | super_algorithm.py:66-70 | a converted value of 0 counts as not found |
| Legacy.GetWikipediaField | super_algorithm.py:43-74 | on a missing table the result is `None`; otherwise it is the legacy field of the table as it was before the call, and the table is left a cleaned form of it |
| Legacy.TryLabel | super_algorithm.py:50-70 | the loop body for one label gives the step of the untouched table, and keeps the table a cleaned form of it |
| Legacy.ExtractText | super_algorithm.py:76-83 | `extract_text_from_element` removes the cell's `<sup>` elements, returns the cleaned text, and changes nothing on a cleaned cell |
| Legacy.ExtractionRepeatable | super_algorithm.py:56-58 | the second extraction of the same cell gives the same text |
| Legacy.CountryUrls | super_algorithm.py:110-113 | the addresses are built exactly when every record has a string name, one per record, in order: the base URL followed by the name as it is |
| Legacy.ConcatError | super_algorithm.py:112 | `base_url + country["name"]` raises `KeyError` when the key is missing and `TypeError` when the name is not a string |
| Legacy.NamesOf | super_algorithm.py:112 | each record's name, in order |
| Legacy.UrlsAgreeWithoutSpaces | super_algorithm.py:110-113 | for names without spaces the legacy addresses are those of the current generator |
| Legacy.UrlAgrees | super_algorithm.py:112 | a name without spaces needs no replacement |
| Legacy.BlankToNA | super_algorithm.py:119-120 | `None` and "" become "N/A", and every other value is kept |
| Legacy.MarkMissing | super_algorithm.py:118-120 | every key is kept, and each value is marked |
| Legacy.ToFloat | super_algorithm.py:123 | "N/A" becomes `None`; `None` raises `TypeError`; a float is kept and an int becomes the equal float; a plain numeral string becomes its decimal value and any other string raises `ValueError` |
| Legacy.ToInt | super_algorithm.py:124 | "N/A" becomes `None`; `None` raises `TypeError`; a float is truncated toward zero and an int is kept; a string of digits becomes its number and any other string raises `ValueError` |
| Legacy.NumeralReadsWhole | super_algorithm.py:123 | a plain numeral is read whole by the number scanner |
| Legacy.ToFloatAgreesWithParseNumber | super_algorithm.py:123 | where `float(s)` accepts a numeral string, it gives what `_parse_number` reads from it |
| Legacy.ToIntAgreesWithWholePart | super_algorithm.py:124 | where `int(s)` accepts a digit string, it gives the whole part `_parse_number` reads from it |
| Legacy.CleanOutcome | super_algorithm.py:116-126 | `clean_data` keeps the keys and marks the blanks; a missing area or population key raises `KeyError`; it succeeds exactly when both keys are present and both conversions succeed, and then the area is `float` of the marked area and the population `int` of the marked population |
| Legacy.CleanedHasNoBlanks | super_algorithm.py:118-120 | after cleaning, no other key holds `None` or "" |
| Legacy.CleanIdempotent | super_algorithm.py:116-126 | cleaning a successfully cleaned dict again changes nothing |
| Legacy.Dict.constructor | super_algorithm.py:116 | a dict holds its items |
| Legacy.CleanData | super_algorithm.py:116-126 | the dict is rewritten in place to the cleaned items, even when the call raises, and the call returns the dict or the exception |
| Legacy.RemoveDuplicates | super_algorithm.py:129-139 | `remove_duplicates` succeeds exactly when every record has a string name, and then gives the first record per lower-cased name in input order; otherwise it raises the error of the first record without one |
| Legacy.LowerError | super_algorithm.py:134 | `data["name"].lower()` raises `KeyError` when the key is missing and `AttributeError` when the name is not a string |
| Legacy.LegacyKey | super_algorithm.py:134 | the lower-cased name of a record with a string name |
| Legacy.LegacyKeyIgnoresCase | super_algorithm.py:134 | two records with string names share a key exactly when the names are equal ignoring case |
| Legacy.LegacyFieldStep | super_algorithm.py:48-70 | without conversion and without a dangling heading, the legacy lookup returns the first label's text when it is non-empty and otherwise goes on to the next label |
| Legacy.RemoveDuplicatesStep | super_algorithm.py:134-137 | one more record is kept, and its key added to the seen names, exactly when that key was not seen yet |
| Legacy.DistinctSnoc | super_algorithm.py:135-137 | appending a record with an unseen key keeps the kept names distinct |

## Left out

- HTTP and JSON input: `fetch_country_data`, `fetch_country_list` and `get_country_list`. The
  model starts from parsed pages and records.
- File output (`save_to_json`), printing, and the command-line entry point `parse_algorithm/cli.py`
  with the package file `parse_algorithm/__init__.py`.
- The legacy `fetch_country_data` assembly of a record dict, and `main`, which drives the legacy
  pipeline. The building blocks that assembly calls are modelled.
- `simple_queries` and `advanced_queries`. They only print their results.
- `CountryData.to_dict` (`dataclasses.asdict`). The model returns the record itself.
- HTML parsing by BeautifulSoup. A page is given as its `h1#firstHeading` strings and the
  infobox elements in document order.
  - A `th` whose `.string` is `None`, because it has several children, is given as an empty
    heading, which no non-empty label matches.
  - A link's text is one string, where `links[0].get_text(strip=True)` joins the link's
    strings. In real HTML the link text is also part of the cell text, so the link fallback
    only matters where the two differ; the model lets them differ freely.
- Unicode: `\s`, `\d`, `re.I` and `str.lower()` are modelled on ASCII letters and digits, with
  the usual whitespace characters.
- Numbers.ParseNumber: floating-point rounding is not modelled. Values are exact decimals, so
  very long numerals have no rounding error here. A numeral beyond the float range (more than
  309 digits) gives `inf` in Python; `int(population)` at parse_algorithm/parser.py:77 then
  raises `OverflowError` and `parse_infobox` raises with it, where the model returns the exact
  whole part.
- Legacy.ToFloat: `float(str)` converts only plain numerals (digits with at most one point,
  starting with a digit). Python also accepts signs, exponents, surrounding whitespace,
  "inf" and "nan".
- Legacy.ToInt: `int(str)` converts only plain digit strings. Python also accepts signs,
  underscores and surrounding whitespace.
- Statistics.Capitals: the order of the dict's keys is not modelled, only its contents.
- Statistics.AverageArea: `sum(filtered) / len(filtered)` is computed exactly, with no
  floating-point rounding.
- Concurrency and time-outs: none, since both versions fetch one page at a time.
