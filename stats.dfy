/**
 * `compute_stats` of parse_algorithm/parser.py: the summary of a list of country records.
 * Python's truthiness decides which records count: a population of 0, an area of 0.0 and an
 * empty capital or currency are left out like a missing one.
 */
module Statistics {
  import opened Wrappers
  import opened Text
  import opened Parser

  /** The dict `compute_stats` returns; `topPopulation` is the record whose `to_dict()` is reported. */
  datatype Stats = Stats(
    countries: seq<string>,
    capitals: map<string, string>,
    topPopulation: Option<CountryData>,
    averageArea: Option<real>,
    euroCountries: seq<string>)

  /** `c.population` is truthy. */
  predicate HasPopulation(c: CountryData) {
    c.population.Some? && c.population.value != 0
  }

  /**
   * The index `max(populations, key=lambda x: x.population)` picks: Python's `max` keeps the
   * first of several equal maxima, so a later record replaces it only when strictly larger.
   */
  function TopIndex(items: seq<CountryData>): (r: Option<nat>)
    ensures r.None? <==> forall k :: 0 <= k < |items| ==> !HasPopulation(items[k])
    ensures r.Some? ==> r.value < |items| && HasPopulation(items[r.value])
    ensures r.Some? ==> forall k :: 0 <= k < |items| && HasPopulation(items[k]) ==>
      items[k].population.value <= items[r.value].population.value
    ensures r.Some? ==> forall k :: 0 <= k < r.value && HasPopulation(items[k]) ==>
      items[k].population.value < items[r.value].population.value
  {
    if items == [] then None
    else
      var last := |items| - 1;
      var t := TopIndex(items[..last]);
      if !HasPopulation(items[last]) then t
      else if t.None? || items[last].population.value > items[t.value].population.value then Some(last)
      else t
  }

  /** `c.capital` is truthy. */
  predicate HasCapital(c: CountryData) {
    c.capital.Some? && c.capital.value != ""
  }

  /** `{c.name: c.capital for c in items if c.capital}`: a later record overwrites an earlier one of the same name. */
  function Capitals(items: seq<CountryData>): (m: map<string, string>)
    ensures forall n :: n in m ==> exists k :: 0 <= k < |items| && items[k].name == n && HasCapital(items[k])
    ensures forall k :: 0 <= k < |items| && HasCapital(items[k]) ==> items[k].name in m
  {
    if items == [] then map[]
    else
      var last := |items| - 1;
      var m := Capitals(items[..last]);
      if HasCapital(items[last]) then m[items[last].name := items[last].capital.value] else m
  }

  /** The capital reported for a name is that of the last record of that name that has one. */
  lemma {:induction false} CapitalsLastWins(items: seq<CountryData>, k: nat)
    requires k < |items| && HasCapital(items[k])
    requires forall j :: k < j < |items| && items[j].name == items[k].name ==> !HasCapital(items[j])
    ensures Capitals(items)[items[k].name] == items[k].capital.value
  {
    var last := |items| - 1;
    var p := items[..last];
    if k < last {
      assert p[k] == items[k];
      assert forall j :: k < j < |p| ==> p[j] == items[j];
      CapitalsLastWins(p, k);
      assert items[last].name != items[k].name || !HasCapital(items[last]);
    }
  }

  /** `c.time_zone == target_timezone and c.area`. */
  predicate InZoneWithArea(c: CountryData, target: string) {
    c.timeZone == Some(target) && c.area.Some? && c.area.value != 0.0
  }

  /** `[c.area for c in items if c.time_zone == target and c.area]`. */
  function ZoneAreas(items: seq<CountryData>, target: string): (areas: seq<real>)
    ensures |areas| <= |items|
    ensures areas == [] <==> forall k :: 0 <= k < |items| ==> !InZoneWithArea(items[k], target)
    ensures forall x :: x in areas <==> exists k :: 0 <= k < |items| && InZoneWithArea(items[k], target) && items[k].area.value == x
  {
    if items == [] then []
    else
      var last := |items| - 1;
      var a := ZoneAreas(items[..last], target);
      if InZoneWithArea(items[last], target) then a + [items[last].area.value] else a
  }

  /** The areas of a concatenation are those of each part in turn, repeats and order kept, as the mean needs. */
  lemma {:induction false} ZoneAreasAppend(a: seq<CountryData>, b: seq<CountryData>, target: string)
    ensures ZoneAreas(a + b, target) == ZoneAreas(a, target) + ZoneAreas(b, target)
  {
    if b == [] {
      assert a + b == a;
    } else {
      var last := |b| - 1;
      assert (a + b)[..|a + b| - 1] == a + b[..last];
      ZoneAreasAppend(a, b[..last], target);
    }
  }

  function Sum(xs: seq<real>): real {
    if xs == [] then 0.0 else Sum(xs[..|xs| - 1]) + xs[|xs| - 1]
  }

  /** The sum of two runs of values one after the other is the sum of their sums. */
  lemma {:induction false} SumConcat(a: seq<real>, b: seq<real>)
    ensures Sum(a + b) == Sum(a) + Sum(b)
  {
    if b == [] {
      assert a + b == a;
    } else {
      SplitLast(a, b);
      SumConcat(a, b[..|b| - 1]);
    }
  }

  /** The average area over the target zone, or `None` when there is no target or nothing to average. */
  function AverageArea(items: seq<CountryData>, target: Option<string>): (r: Option<real>)
    ensures r.None? <==> target.None? || target.value == "" || forall k :: 0 <= k < |items| ==> !InZoneWithArea(items[k], target.value)
  {
    if target.None? || target.value == "" then None
    else
      var areas := ZoneAreas(items, target.value);
      if areas == [] then None else Some(Sum(areas) / |areas| as real)
  }

  lemma {:induction false} SumBounds(xs: seq<real>, lo: real, hi: real)
    requires forall k :: 0 <= k < |xs| ==> lo <= xs[k] <= hi
    ensures |xs| as real * lo <= Sum(xs) <= |xs| as real * hi
  {
    if xs != [] {
      SumBounds(xs[..|xs| - 1], lo, hi);
    }
  }

  lemma MeanOfBounded(s: real, n: nat, lo: real, hi: real)
    requires n > 0 && n as real * lo <= s <= n as real * hi
    ensures lo <= s / n as real <= hi
  {
    var m := s / n as real;
    assert s == m * n as real;
  }

  /** The average lies between the smallest and the largest of the areas it is taken over. */
  lemma AverageAreaBetween(items: seq<CountryData>, target: string, lo: real, hi: real)
    requires forall k :: 0 <= k < |items| && InZoneWithArea(items[k], target) ==> lo <= items[k].area.value <= hi
    requires AverageArea(items, Some(target)).Some?
    ensures lo <= AverageArea(items, Some(target)).value <= hi
  {
    var areas := ZoneAreas(items, target);
    assert areas != [];
    assert AverageArea(items, Some(target)).value == Sum(areas) / |areas| as real;
    forall j | 0 <= j < |areas| ensures lo <= areas[j] <= hi {
      assert areas[j] in areas;
      var k :| 0 <= k < |items| && InZoneWithArea(items[k], target) && items[k].area.value == areas[j];
    }
    SumBounds(areas, lo, hi);
    MeanOfBounded(Sum(areas), |areas|, lo, hi);
  }

  /** `c.currency and "euro" in c.currency.lower()`. */
  predicate IsEuro(c: CountryData) {
    c.currency.Some? && c.currency.value != "" && Contains(Lower(c.currency.value), "euro")
  }

  /** `[c.name for c in items if c.currency and "euro" in c.currency.lower()]`. */
  function EuroCountries(items: seq<CountryData>): (names: seq<string>)
    ensures |names| <= |items|
    ensures forall n :: n in names <==> exists k :: 0 <= k < |items| && IsEuro(items[k]) && items[k].name == n
  {
    if items == [] then []
    else
      var last := |items| - 1;
      var e := EuroCountries(items[..last]);
      if IsEuro(items[last]) then e + [items[last].name] else e
  }

  /** The filter keeps input order: the names of a concatenation are the names of the parts, in turn. */
  lemma {:induction false} EuroCountriesAppend(a: seq<CountryData>, b: seq<CountryData>)
    ensures EuroCountries(a + b) == EuroCountries(a) + EuroCountries(b)
  {
    if b == [] {
      assert a + b == a;
    } else {
      var last := |b| - 1;
      assert (a + b)[..|a + b| - 1] == a + b[..last];
      EuroCountriesAppend(a, b[..last]);
    }
  }

  /** `[c.name for c in items]`. */
  function Names(items: seq<CountryData>): (names: seq<string>)
    ensures |names| == |items|
    ensures forall k :: 0 <= k < |items| ==> names[k] == items[k].name
  {
    seq(|items|, k requires 0 <= k < |items| => items[k].name)
  }

  /** `compute_stats(countries, target_timezone)`. */
  function ComputeStats(items: seq<CountryData>, target: Option<string>): (r: Stats)
    ensures r.countries == Names(items)
    ensures r.topPopulation.None? <==> forall k :: 0 <= k < |items| ==> !HasPopulation(items[k])
    ensures r.topPopulation.Some? ==> r.topPopulation.value in items && HasPopulation(r.topPopulation.value)
    ensures r.topPopulation.Some? ==> forall k :: 0 <= k < |items| && HasPopulation(items[k]) ==>
      items[k].population.value <= r.topPopulation.value.population.value
    ensures items == [] ==> r == Stats([], map[], None, None, [])
  {
    var top := TopIndex(items);
    Stats(
      Names(items),
      Capitals(items),
      if top.Some? then Some(items[top.value]) else None,
      AverageArea(items, target),
      EuroCountries(items))
  }

  const One: CountryData := CountryData("One", Some("Cap1"), Some(100.0), Some(50), Some("UTC+3"), Some("Euro"), None)
  const Two: CountryData := CountryData("Two", Some("Cap2"), Some(300.0), Some(150), Some("UTC+3"), Some("Dollar"), None)
  const Three: CountryData := CountryData("Three", Some("Cap3"), Some(200.0), Some(250), Some("UTC+1"), Some("Euro"), None)

  /** The three records of the statistics test in tests/test_parser.py, with the target zone "UTC+3". */
  lemma StatsExample()
    ensures ComputeStats([One, Two, Three], Some("UTC+3")).topPopulation == Some(Three)
    ensures ComputeStats([One, Two, Three], Some("UTC+3")).averageArea == Some(200.0)
    ensures ComputeStats([One, Two, Three], Some("UTC+3")).euroCountries == ["One", "Three"]
    ensures "One" in ComputeStats([One, Two, Three], Some("UTC+3")).capitals
    ensures ComputeStats([One, Two, Three], Some("UTC+3")).capitals["One"] == "Cap1"
  {
    var items := [One, Two, Three];
    var st := ComputeStats(items, Some("UTC+3"));
    assert st.capitals == Capitals(items) && st.averageArea == AverageArea(items, Some("UTC+3"));
    assert st.euroCountries == EuroCountries(items);
    ExampleTop();
    assert st.topPopulation == Some(items[2]);
    ExampleAverage();
    ExampleEuro();
    ExampleCapitals();
  }

  lemma ExampleAverage()
    ensures AverageArea([One, Two, Three], Some("UTC+3")) == Some(200.0)
  {
    ExampleAreas();
    var a := [100.0, 300.0];
    assert a[..1] == [100.0] && [100.0][..0] == [];
    assert Sum(a) == 400.0;
  }

  lemma ExampleCapitals()
    ensures "One" in Capitals([One, Two, Three]) && Capitals([One, Two, Three])["One"] == "Cap1"
  {
    var items := [One, Two, Three];
    assert HasCapital(items[0]);
    assert items[1].name != "One" && items[2].name != "One";
    CapitalsLastWins(items, 0);
  }

  lemma ExampleTop()
    ensures TopIndex([One, Two, Three]) == Some(2)
  {
    var items := [One, Two, Three];
    assert items[..2] == [One, Two] && [One, Two][..1] == [One] && [One][..0] == [];
    assert TopIndex([One]) == Some(0);
    assert TopIndex([One, Two]) == Some(1);
  }

  lemma ExampleAreas()
    ensures ZoneAreas([One, Two, Three], "UTC+3") == [100.0, 300.0]
  {
    var items := [One, Two, Three];
    assert items[..2] == [One, Two] && [One, Two][..1] == [One] && [One][..0] == [];
    assert "UTC+1" != "UTC+3" by { assert "UTC+1"[4] != "UTC+3"[4]; }
    assert !InZoneWithArea(Three, "UTC+3");
    assert ZoneAreas([One], "UTC+3") == [100.0];
  }

  lemma ExampleEuro()
    ensures EuroCountries([One, Two, Three]) == ["One", "Three"]
  {
    var items := [One, Two, Three];
    assert items[..2] == [One, Two] && [One, Two][..1] == [One] && [One][..0] == [];
    EuroIsEuro();
    DollarIsNotEuro();
    assert IsEuro(One) && !IsEuro(Two) && IsEuro(Three);
    assert EuroCountries([One]) == ["One"];
    assert EuroCountries([One, Two]) == ["One"];
  }

  lemma EuroIsEuro()
    ensures Contains(Lower("Euro"), "euro")
  {
    assert Lower("Euro") == "euro";
    assert OccursAt("euro", "euro", 0);
  }

  lemma DollarIsNotEuro()
    ensures !Contains(Lower("Dollar"), "euro")
  {
    var d := Lower("Dollar");
    assert d == "dollar";
    forall i | 0 <= i <= |d| - 4 ensures !OccursAt(d, "euro", i) {
      assert d[i..i + 4][0] == d[i] != 'e';
    }
  }
}
