/**
 * The field extractor of parse_algorithm/parser.py (`_clean_text`, `_find_field`),
 * whose legacy twin in super_algorithm.py (`extract_text_from_element`, the lookup of
 * `get_wikipedia_field`) shares the cleaning and the heading match.
 *
 * An infobox is its elements in document order: heading cells `Th` carrying their
 * `.string`, and data cells `Td` carrying their text strings and the texts of their links,
 * each marked when it lies inside a `<sup>` footnote marker. `th.find_next("td")` does not
 * stop at the end of the table, so the elements a lookup walks through are the table's own
 * followed by the data cells after it (`Document`).
 */
module Extraction {
  import opened Wrappers
  import opened Text

  /** One text string, or one link's text, of a data cell; `isSup` when it lies inside a `<sup>` element. */
  datatype Fragment = Fragment(isSup: bool, text: string)

  /** A page element, in document order. */
  datatype Node = Th(heading: string) | Td(fragments: seq<Fragment>, links: seq<Fragment>)

  /** The cell's strings once every `<sup>` has been removed from the tree. */
  function WithoutSups(fs: seq<Fragment>): (r: seq<Fragment>)
    ensures |r| <= |fs|
    ensures forall k :: 0 <= k < |r| ==> !r[k].isSup
  {
    if fs == [] then []
    else
      assert fs == fs[..|fs| - 1] + [fs[|fs| - 1]];
      WithoutSups(fs[..|fs| - 1]) + (if fs[|fs| - 1].isSup then [] else [fs[|fs| - 1]])
  }

  /** Removing the markers keeps exactly the strings outside a `<sup>`. */
  lemma {:induction false} WithoutSupsMembers(fs: seq<Fragment>)
    ensures forall f :: f in WithoutSups(fs) <==> f in fs && !f.isSup
  {
    if fs != [] {
      var p, last := fs[..|fs| - 1], fs[|fs| - 1];
      WithoutSupsMembers(p);
      assert fs == p + [last];
    }
  }

  /** Removal works piece by piece: it keeps the order and every copy of what it keeps. */
  lemma {:induction false} WithoutSupsConcat(a: seq<Fragment>, b: seq<Fragment>)
    ensures WithoutSups(a + b) == WithoutSups(a) + WithoutSups(b)
  {
    if b == [] {
      assert a + b == a;
    } else {
      var last := |b| - 1;
      assert (a + b)[..|a + b| - 1] == a + b[..last];
      WithoutSupsConcat(a, b[..last]);
    }
  }

  /** `for sup in element.find_all("sup"): sup.decompose()`, one string at a time. */
  method RemoveSups(fs: seq<Fragment>) returns (kept: seq<Fragment>)
    ensures kept == WithoutSups(fs)
  {
    kept := [];
    for k := 0 to |fs|
      invariant kept == WithoutSups(fs[..k])
    {
      assert fs[..k + 1][..k] == fs[..k];
      if !fs[k].isSup {
        kept := kept + [fs[k]];
      }
    }
    assert fs[..|fs|] == fs;
  }

  /** bs4's `get_text(strip=True)`: every string stripped, then joined with no separator. */
  function GetText(fs: seq<Fragment>): (r: string)
    ensures IsTrimmed(r)
  {
    if fs == [] then []
    else
      var prefix := GetText(fs[..|fs| - 1]);
      var t := Strip(fs[|fs| - 1].text);
      TrimmedConcat(prefix, t);
      prefix + t
  }

  /** The text of consecutive strings is the text of the first ones followed by that of the rest. */
  lemma {:induction false} GetTextConcat(a: seq<Fragment>, b: seq<Fragment>)
    ensures GetText(a + b) == GetText(a) + GetText(b)
  {
    if b == [] {
      assert a + b == a;
    } else {
      var init, x := b[..|b| - 1], b[|b| - 1];
      GetTextConcat(a, init);
      GetTextConcatStep(a, b, init, x);
    }
  }

  lemma GetTextConcatStep(a: seq<Fragment>, b: seq<Fragment>, init: seq<Fragment>, x: Fragment)
    requires b != [] && init == b[..|b| - 1] && x == b[|b| - 1]
    requires GetText(a + init) == GetText(a) + GetText(init)
    ensures GetText(a + b) == GetText(a) + GetText(b)
  {
    SplitLast(a, b);
    GetTextSnoc(a + init, x);
    GetTextSnoc(init, x);
    Associative(GetText(a), GetText(init), Strip(x.text));
  }

  lemma GetTextSnoc(fs: seq<Fragment>, x: Fragment)
    ensures GetText(fs + [x]) == GetText(fs) + Strip(x.text)
  {
    assert (fs + [x])[..|fs|] == fs;
  }

  lemma Associative(p: string, q: string, t: string)
    ensures (p + q) + t == p + (q + t)
  {
  }

  /** The text of one string is that string, stripped. */
  lemma GetTextSingle(f: Fragment)
    ensures GetText([f]) == Strip(f.text)
  {
    assert [f][..0] == [];
  }

  /** `_clean_text` of a cell: drop the footnote markers, then take the stripped text. */
  function CleanText(fs: seq<Fragment>): (r: string)
    ensures IsTrimmed(r)
  {
    GetText(WithoutSups(fs))
  }

  lemma {:induction false} NoSupsUnchanged(fs: seq<Fragment>)
    requires forall k :: 0 <= k < |fs| ==> !fs[k].isSup
    ensures WithoutSups(fs) == fs
  {
    if fs != [] {
      var p, last := fs[..|fs| - 1], fs[|fs| - 1];
      assert forall k :: 0 <= k < |p| ==> !p[k].isSup;
      NoSupsUnchanged(p);
      assert !last.isSup;
      calc {
        WithoutSups(fs);
        WithoutSups(p) + [last];
        { assert WithoutSups(p) == p; }
        p + [last];
        fs;
      }
    }
  }

  /** Cleaning a cell whose markers are already gone gives the same text. */
  lemma CleanTextTwice(fs: seq<Fragment>)
    ensures WithoutSups(WithoutSups(fs)) == WithoutSups(fs)
    ensures CleanText(WithoutSups(fs)) == CleanText(fs)
  {
    NoSupsUnchanged(WithoutSups(fs));
  }

  /** What may precede the label in `^\s*•?\s*label\s*$`: whitespace, at most one bullet, whitespace. */
  predicate IsLeader(p: string) {
    var q := TrimLeft(p);
    AllSpace(q) || (|q| > 0 && q[0] == '\U{2022}' && AllSpace(q[1..]))
  }

  /** The heading `h` is a leader, then the label (ignoring case) from index `i`, then whitespace. */
  predicate LabelAt(h: string, lbl: string, i: nat)
    requires i + |lbl| <= |h|
  {
    IsLeader(h[..i]) && EqualIgnoringCase(h[i..i + |lbl|], lbl) && AllSpace(h[i + |lbl|..])
  }

  /** The heading matches `re.compile(rf"^\s*•?\s*{re.escape(label)}\s*$", flags=re.I)`. */
  predicate HeadingMatches(h: string, lbl: string) {
    exists i | 0 <= i <= |h| - |lbl| :: LabelAt(h, lbl, i)
  }

  predicate IsMatchingHeading(n: Node, lbl: string) {
    n.Th? && HeadingMatches(n.heading, lbl)
  }

  /** `infobox.find("th", string=...)`, searching from index `from` on. */
  function FirstHeadingFrom(nodes: seq<Node>, lbl: string, from: nat): (r: Option<nat>)
    requires from <= |nodes|
    ensures r.Some? ==> from <= r.value < |nodes| && IsMatchingHeading(nodes[r.value], lbl)
    ensures r.Some? ==> forall k :: from <= k < r.value ==> !IsMatchingHeading(nodes[k], lbl)
    ensures r.None? ==> forall k :: from <= k < |nodes| ==> !IsMatchingHeading(nodes[k], lbl)
    decreases |nodes| - from
  {
    if from == |nodes| then None
    else if IsMatchingHeading(nodes[from], lbl) then Some(from)
    else FirstHeadingFrom(nodes, lbl, from + 1)
  }

  /** `infobox.find("th", string=...)`: the first heading of the table that matches the label, if any. */
  function FirstHeading(nodes: seq<Node>, lbl: string): (r: Option<nat>)
    ensures r.Some? ==> r.value < |nodes| && IsMatchingHeading(nodes[r.value], lbl)
    ensures r.Some? ==> forall k :: 0 <= k < r.value ==> !IsMatchingHeading(nodes[k], lbl)
    ensures r.None? <==> forall k :: 0 <= k < |nodes| ==> !IsMatchingHeading(nodes[k], lbl)
  {
    FirstHeadingFrom(nodes, lbl, 0)
  }

  /** The first data cell at index `from` or later. */
  function NextCellFrom(nodes: seq<Node>, from: nat): (r: Option<nat>)
    requires from <= |nodes|
    ensures r.Some? ==> from <= r.value < |nodes| && nodes[r.value].Td?
    ensures r.Some? ==> forall k :: from <= k < r.value ==> !nodes[k].Td?
    ensures r.None? ==> forall k :: from <= k < |nodes| ==> !nodes[k].Td?
    decreases |nodes| - from
  {
    if from == |nodes| then None
    else if nodes[from].Td? then Some(from)
    else NextCellFrom(nodes, from + 1)
  }

  /** `th.find_next("td")` for the heading at index `at`. */
  function NextCell(nodes: seq<Node>, at: nat): (r: Option<nat>)
    requires at < |nodes|
    ensures r.Some? ==> at < r.value < |nodes| && nodes[r.value].Td?
    ensures r.Some? ==> forall k :: at < k < r.value ==> !nodes[k].Td?
    ensures r.None? <==> forall k :: at < k < |nodes| ==> !nodes[k].Td?
  {
    NextCellFrom(nodes, at + 1)
  }

  /** The data cells among the page elements that follow the table, in document order. */
  function CellsOnly(later: seq<Node>): (r: seq<Node>)
    ensures |r| <= |later|
    ensures forall k :: 0 <= k < |r| ==> r[k].Td?
  {
    if later == [] then [] else (if later[0].Td? then [later[0]] else []) + CellsOnly(later[1..])
  }

  /** No cell is kept exactly when no element after the table is a data cell. */
  lemma {:induction false} CellsOnlyEmpty(later: seq<Node>)
    ensures CellsOnly(later) == [] <==> forall k :: 0 <= k < |later| ==> !later[k].Td?
  {
    if later != [] {
      CellsOnlyEmpty(later[1..]);
      assert forall k :: 1 <= k < |later| ==> later[k] == later[1..][k - 1];
    }
  }

  /** The first cell kept is the first data cell after the table, the one `find_next("td")` reaches. */
  lemma {:induction false} CellsOnlyFirst(later: seq<Node>)
    requires CellsOnly(later) != []
    ensures NextCellFrom(later, 0).Some? && CellsOnly(later)[0] == later[NextCellFrom(later, 0).value]
  {
    if !later[0].Td? {
      var rest := later[1..];
      CellsOnlyFirst(rest);
      var j := NextCellFrom(rest, 0).value;
      assert later[j + 1] == rest[j] && later[j + 1].Td?;
      assert forall k :: 1 <= k < j + 1 ==> later[k] == rest[k - 1];
      assert NextCellFrom(later, 0) == NextCellFrom(later, 1);
    }
  }

  /**
   * What `find` and `find_next` walk through: the table's own elements, then the data cells
   * after it. Headings after the table are left out, since `infobox.find("th", ...)` stays
   * inside the table.
   */
  function Document(table: seq<Node>, later: seq<Node>): (r: seq<Node>)
    ensures |r| == |table| + |CellsOnly(later)|
    ensures r[..|table|] == table
  {
    table + CellsOnly(later)
  }

  /** A heading is looked up in the table only: the cells after it never change which heading is found. */
  lemma DocumentKeepsHeadings(table: seq<Node>, later: seq<Node>, lbl: string)
    ensures FirstHeading(Document(table, later), lbl) == FirstHeading(table, lbl)
  {
    var d := Document(table, later);
    assert forall k :: 0 <= k < |table| ==> d[k] == table[k];
    assert forall k :: |table| <= k < |d| ==> d[k] == CellsOnly(later)[k - |table|];
  }

  /**
   * `th.find_next("td")` does not stop at the end of the table: the cell found is the next
   * one in the table, or, when the table has none after the heading, the first data cell
   * after the table.
   */
  lemma DocumentNextCell(table: seq<Node>, later: seq<Node>, at: nat)
    requires at < |table|
    ensures NextCellFrom(table, at + 1).Some? ==> NextCell(Document(table, later), at) == NextCellFrom(table, at + 1)
    ensures NextCellFrom(table, at + 1).None? && CellsOnly(later) == [] ==> NextCell(Document(table, later), at).None?
    ensures NextCellFrom(table, at + 1).None? && CellsOnly(later) != [] ==> NextCell(Document(table, later), at) == Some(|table|)
  {
    var d := Document(table, later);
    assert forall k :: 0 <= k < |table| ==> d[k] == table[k];
    if CellsOnly(later) != [] {
      assert d[|table|] == CellsOnly(later)[0];
    }
  }

  /**
   * The value of a data cell: its cleaned text, or else the stripped text of its first link
   * that is left once the `<sup>` elements are gone.
   */
  function CellValue(n: Node): (r: string)
    requires n.Td?
    ensures IsTrimmed(r)
    ensures CleanText(n.fragments) != "" ==> r == CleanText(n.fragments)
    ensures CleanText(n.fragments) == "" && WithoutSups(n.links) == [] ==> r == ""
    ensures CleanText(n.fragments) == "" && WithoutSups(n.links) != [] ==> r == Strip(WithoutSups(n.links)[0].text)
  {
    var t := CleanText(n.fragments);
    var links := WithoutSups(n.links);
    if t != "" then t else if |links| > 0 then Strip(links[0].text) else ""
  }

  /** What one label yields: the value of the first cell after the first matching heading. */
  function FieldValue(nodes: seq<Node>, lbl: string): (r: string)
    ensures IsTrimmed(r)
    ensures FirstHeading(nodes, lbl).None? ==> r == ""
    ensures FirstHeading(nodes, lbl).Some? && NextCell(nodes, FirstHeading(nodes, lbl).value).None? ==> r == ""
    ensures FirstHeading(nodes, lbl).Some? && NextCell(nodes, FirstHeading(nodes, lbl).value).Some? ==>
      r == CellValue(nodes[NextCell(nodes, FirstHeading(nodes, lbl).value).value])
  {
    match FirstHeading(nodes, lbl)
    case None => ""
    case Some(i) =>
      match NextCell(nodes, i)
      case None => ""
      case Some(j) => CellValue(nodes[j])
  }

  /** The first non-empty value in order, or "" when every value is empty. */
  function FirstNonEmpty(values: seq<string>): (r: string)
    ensures r == "" <==> forall k :: 0 <= k < |values| ==> values[k] == ""
    ensures r == "" || r in values
  {
    if values == [] then ""
    else if values[0] != "" then values[0]
    else FirstNonEmpty(values[1..])
  }

  /** The value the first non-empty one is, is the first non-empty one. */
  lemma {:induction false} FirstNonEmptyAt(values: seq<string>, k: nat)
    requires k < |values| && values[k] != ""
    requires forall j :: 0 <= j < k ==> values[j] == ""
    ensures FirstNonEmpty(values) == values[k]
  {
    if k > 0 {
      FirstNonEmptyAt(values[1..], k - 1);
    }
  }

  /** Leading empty values do not change the outcome. */
  lemma {:induction false} FirstNonEmptySkipsEmpty(empty: seq<string>, values: seq<string>)
    requires forall k :: 0 <= k < |empty| ==> empty[k] == ""
    ensures FirstNonEmpty(empty + values) == FirstNonEmpty(values)
  {
    if empty != [] {
      var all := empty + values;
      assert all[0] == empty[0] == "";
      assert all[1..] == empty[1..] + values;
      FirstNonEmptySkipsEmpty(empty[1..], values);
      assert FirstNonEmpty(all) == FirstNonEmpty(all[1..]);
    } else {
      assert empty + values == values;
    }
  }

  /** What each label yields, in label order. */
  function LabelValues(nodes: seq<Node>, labels: seq<string>): (vs: seq<string>)
    ensures |vs| == |labels|
    ensures forall k :: 0 <= k < |labels| ==> vs[k] == FieldValue(nodes, labels[k])
  {
    seq(|labels|, k requires 0 <= k < |labels| => FieldValue(nodes, labels[k]))
  }

  /** `_find_field`: the labels tried in order, the first non-empty value wins, "" when none yields text. */
  function Field(nodes: seq<Node>, labels: seq<string>): (r: string)
    ensures IsTrimmed(r)
    ensures r == "" <==> forall k :: 0 <= k < |labels| ==> FieldValue(nodes, labels[k]) == ""
  {
    var vs := LabelValues(nodes, labels);
    var r := FirstNonEmpty(vs);
    assert r != "" ==> exists k :: 0 <= k < |vs| && vs[k] == r;
    r
  }

  /** The first label that yields text decides the field. */
  lemma FieldIsFirstYielding(nodes: seq<Node>, labels: seq<string>, k: nat)
    requires k < |labels| && FieldValue(nodes, labels[k]) != ""
    requires forall j :: 0 <= j < k ==> FieldValue(nodes, labels[j]) == ""
    ensures Field(nodes, labels) == FieldValue(nodes, labels[k])
  {
    FirstNonEmptyAt(LabelValues(nodes, labels), k);
  }

  /** Earlier labels that yield nothing do not change the outcome. */
  lemma FieldSkipsBarrenLabels(nodes: seq<Node>, skipped: seq<string>, labels: seq<string>)
    requires forall k :: 0 <= k < |skipped| ==> FieldValue(nodes, skipped[k]) == ""
    ensures Field(nodes, skipped + labels) == Field(nodes, labels)
  {
    assert LabelValues(nodes, skipped + labels) == LabelValues(nodes, skipped) + LabelValues(nodes, labels);
    FirstNonEmptySkipsEmpty(LabelValues(nodes, skipped), LabelValues(nodes, labels));
  }

  lemma LabelCaseOneWay(h: string, a: string, b: string)
    requires Lower(a) == Lower(b) && HeadingMatches(h, a)
    ensures HeadingMatches(h, b)
  {
    var i :| 0 <= i <= |h| - |a| && LabelAt(h, a, i);
    assert |b| == |Lower(b)| == |Lower(a)| == |a|;
    var x := h[i..i + |a|];
    EqualIgnoringCaseSwap(x, a, b);
    assert IsLeader(h[..i]) && EqualIgnoringCase(h[i..i + |b|], b) && AllSpace(h[i + |b|..]);
    assert LabelAt(h, b, i);
  }

  /** Case does not matter in a label. */
  lemma LabelCaseIrrelevant(h: string, a: string, b: string)
    requires Lower(a) == Lower(b)
    ensures HeadingMatches(h, a) <==> HeadingMatches(h, b)
  {
    if HeadingMatches(h, a) {
      LabelCaseOneWay(h, a, b);
    }
    if HeadingMatches(h, b) {
      LabelCaseOneWay(h, b, a);
    }
  }

  /** A bulleted heading matches the plain label. */
  lemma BulletedHeadingMatches()
    ensures HeadingMatches("\U{2022} Capital", "Capital")
  {
    var bulleted := "\U{2022} Capital";
    assert TrimLeft(bulleted[..2]) == bulleted[..2];
    assert LabelAt(bulleted, "Capital", 2);
  }

  /** The match ignores case. */
  lemma LowerCaseHeadingMatches()
    ensures HeadingMatches("capital", "Capital")
  {
    var h := "capital";
    assert IsLeader(h[..0]) by { assert h[..0] == ""; assert TrimLeft("") == ""; }
    assert EqualIgnoringCase(h[0..7], "Capital") by {
      assert h[0..7] == h;
      assert LowerChar('C') == 'c';
    }
    assert AllSpace(h[7..]) by { assert h[7..] == ""; }
    assert LabelAt(h, "Capital", 0);
  }

  /**
   * A heading that is the last cell of its table still finds a value: `find_next("td")` goes on
   * to the first data cell after the table, past a heading outside it.
   */
  lemma CellAfterTableExample()
    ensures FieldValue(Document([Th("capital")], [Th("Notes"), Td([Fragment(false, "Paris")], [])]), "Capital") == "Paris"
  {
    ExampleDocument();
    ExampleLookup();
  }

  lemma ExampleLookup()
    ensures FieldValue([Th("capital"), Td([Fragment(false, "Paris")], [])], "Capital") == "Paris"
  {
    var d := [Th("capital"), Td([Fragment(false, "Paris")], [])];
    LowerCaseHeadingMatches();
    assert IsMatchingHeading(d[0], "Capital");
    assert FirstHeading(d, "Capital") == Some(0);
    assert NextCell(d, 0) == Some(1);
    ExampleCellText();
  }

  lemma ExampleDocument()
    ensures Document([Th("capital")], [Th("Notes"), Td([Fragment(false, "Paris")], [])]) == [Th("capital"), Td([Fragment(false, "Paris")], [])]
  {
    var later := [Th("Notes"), Td([Fragment(false, "Paris")], [])];
    assert later[1..] == [later[1]] && later[1..][1..] == [];
  }

  lemma ExampleCellText()
    ensures CleanText([Fragment(false, "Paris")]) == "Paris"
  {
    CleanTextSingle(Fragment(false, "Paris"));
    ParisIsTrimmed();
  }

  lemma ParisIsTrimmed()
    ensures IsTrimmed("Paris")
  {
    var p := "Paris";
    assert |p| == 5 && p[0] == 'P' && p[4] == 's';
  }

  /** The label must fill the heading: "Capital city" is not the field "Capital". */
  lemma LongerHeadingDoesNotMatch()
    ensures !HeadingMatches("Capital city", "Capital")
  {
    var h := "Capital city";
    forall i | 0 <= i <= |h| - 7 ensures !LabelAt(h, "Capital", i) {
      if i == 0 {
        TrailingWordAt0();
      } else {
        assert h[..i][0] == 'C';
        NoLeaderBeforeLetter(h[..i]);
      }
    }
  }

  /** At the start, the label is followed by " city", which is not all whitespace. */
  lemma TrailingWordAt0()
    ensures !LabelAt("Capital city", "Capital", 0)
  {
    var h := "Capital city";
    assert h[7..][1] == 'c';
  }

  /** A prefix that starts with a letter is no leader. */
  lemma NoLeaderBeforeLetter(p: string)
    requires |p| > 0 && p[0] == 'C'
    ensures !IsLeader(p)
  {
    assert TrimLeft(p) == p;
  }

  /** The data cell with its footnote markers, and the links inside them, removed (a heading is left as it is). */
  function Decomposed(n: Node): Node {
    match n
    case Th(_) => n
    case Td(fs, links) => Td(WithoutSups(fs), WithoutSups(links))
  }

  /** Cleaning goes string by string: a string outside a `<sup>` gives its stripped text, one inside gives nothing. */
  lemma CleanTextConcat(a: seq<Fragment>, b: seq<Fragment>)
    ensures CleanText(a + b) == CleanText(a) + CleanText(b)
  {
    WithoutSupsConcat(a, b);
    GetTextConcat(WithoutSups(a), WithoutSups(b));
  }

  lemma CleanTextSingle(f: Fragment)
    ensures CleanText([f]) == if f.isSup then "" else Strip(f.text)
  {
    assert [f][..0] == [];
    GetTextSingle(f);
  }

  /** Removing the markers of a cleaned cell changes nothing. */
  lemma DecomposedTwice(n: Node)
    ensures Decomposed(Decomposed(n)) == Decomposed(n)
  {
    if n.Td? {
      CleanTextTwice(n.fragments);
      CleanTextTwice(n.links);
    }
  }

  /** `now` is `orig` with the footnote markers of some data cells removed. */
  predicate CleanedFrom(orig: seq<Node>, now: seq<Node>) {
    |orig| == |now| && forall k :: 0 <= k < |orig| ==> now[k] == orig[k] || now[k] == Decomposed(orig[k])
  }

  /** Cleaning one more cell keeps the relation. */
  lemma CleanedFromStep(orig: seq<Node>, now: seq<Node>, j: nat)
    requires CleanedFrom(orig, now) && j < |now|
    ensures CleanedFrom(orig, now[j := Decomposed(now[j])])
  {
    DecomposedTwice(orig[j]);
  }

  lemma CleanedFromTransitive(a: seq<Node>, b: seq<Node>, c: seq<Node>)
    requires CleanedFrom(a, b) && CleanedFrom(b, c)
    ensures CleanedFrom(a, c)
  {
    forall k | 0 <= k < |a| ensures c[k] == a[k] || c[k] == Decomposed(a[k]) {
      DecomposedTwice(a[k]);
    }
  }

  /** Removing a cell's footnote markers does not change its value. */
  lemma CellValueAfterCleaning(n: Node)
    requires n.Td?
    ensures CellValue(Decomposed(n)) == CellValue(n)
  {
    CleanTextTwice(n.fragments);
    CleanTextTwice(n.links);
  }

  lemma SameHeadingsSameFirst(a: seq<Node>, b: seq<Node>, lbl: string)
    requires |a| == |b|
    requires forall k :: 0 <= k < |a| ==> IsMatchingHeading(a[k], lbl) == IsMatchingHeading(b[k], lbl)
    ensures FirstHeading(a, lbl) == FirstHeading(b, lbl)
  {
  }

  lemma SameCellsSameNext(a: seq<Node>, b: seq<Node>, i: nat)
    requires |a| == |b| && i < |a|
    requires forall k :: 0 <= k < |a| ==> a[k].Td? == b[k].Td?
    ensures NextCell(a, i) == NextCell(b, i)
  {
  }

  /** Removing footnote markers changes no heading, no cell position and no cell value. */
  lemma CleanedFromKeepsLookup(orig: seq<Node>, now: seq<Node>, lbl: string)
    requires CleanedFrom(orig, now)
    ensures FieldValue(now, lbl) == FieldValue(orig, lbl)
  {
    SameHeadingsSameFirst(orig, now, lbl);
    match FirstHeading(orig, lbl)
    case None =>
    case Some(i) =>
      SameCellsSameNext(orig, now, i);
      match NextCell(orig, i)
      case None =>
      case Some(j) =>
        if now[j] != orig[j] {
          CellValueAfterCleaning(orig[j]);
        }
  }

  /** So a lookup after earlier lookups gives what it would give on the untouched infobox. */
  lemma CleanedFromKeepsField(orig: seq<Node>, now: seq<Node>, labels: seq<string>)
    requires CleanedFrom(orig, now)
    ensures Field(now, labels) == Field(orig, labels)
  {
    forall k | 0 <= k < |labels| ensures FieldValue(now, labels[k]) == FieldValue(orig, labels[k]) {
      CleanedFromKeepsLookup(orig, now, labels[k]);
    }
    assert LabelValues(now, labels) == LabelValues(orig, labels);
  }

  /**
   * The infobox table of one parsed page, with the data cells after it that `find_next`
   * reaches (`Document`); a data cell loses its `<sup>` elements when it is read.
   */
  class Infobox {
    var nodes: seq<Node>

    constructor (nodes: seq<Node>)
      ensures this.nodes == nodes
    {
      this.nodes := nodes;
    }

    /** `_clean_text(td)` / `extract_text_from_element(td)`: removes the cell's `<sup>` elements from the tree and returns the stripped text. */
    method CleanCell(j: nat) returns (text: string)
      requires j < |nodes| && nodes[j].Td?
      modifies this
      ensures nodes == old(nodes)[j := Decomposed(old(nodes)[j])]
      ensures text == CleanText(old(nodes)[j].fragments)
    {
      var kept := RemoveSups(nodes[j].fragments);
      var links := RemoveSups(nodes[j].links);
      nodes := nodes[j := Td(kept, links)];
      text := GetText(kept);
    }

    /** `_find_field(infobox, labels)`. */
    method FindField(labels: seq<string>) returns (text: string)
      modifies this
      ensures text == Field(old(nodes), labels)
      ensures CleanedFrom(old(nodes), nodes)
    {
      for k := 0 to |labels|
        invariant CleanedFrom(old(nodes), nodes)
        invariant Field(old(nodes), labels) == FirstNonEmpty(LabelValues(old(nodes), labels)[k..])
      {
        CleanedFromKeepsLookup(old(nodes), nodes, labels[k]);
        ghost var vs := LabelValues(old(nodes), labels);
        assert vs[k..][0] == vs[k] && vs[k..][1..] == vs[k + 1..];
        var th := FirstHeading(nodes, labels[k]);
        if th.Some? {
          var td := NextCell(nodes, th.value);
          if td.Some? {
            ghost var before := nodes;
            text := CleanCell(td.value);
            if text == "" {
              var links := nodes[td.value].links;
              if |links| > 0 {
                text := Strip(links[0].text);
              }
            }
            assert text == CellValue(before[td.value]);
            CleanedFromStep(old(nodes), before, td.value);
            if text != "" {
              return;
            }
          }
        }
      }
      assert LabelValues(old(nodes), labels)[|labels|..] == [];
      text := "";
    }
  }
}
