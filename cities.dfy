/** The spider: link discovery on a municipality list page (`parse`), the
    per-city record built from the page's infobox (`parse_city`) and the text
    cleaner every field goes through (`extract_text`).

    The XPath engine is replaced by explicit values: a list page is the
    sequence of anchors found in the second cell of table rows, and an
    infobox is the sequence of its table rows, each reduced to the texts the
    queries can see. */
module Cities {
  import opened Strings
  import opened Items

  datatype Option<T> = None | Some(value: T)

  /** The origin every relative city link is resolved against. */
  const BASE_URL: string := "https://pt.wikipedia.org"

  const NBSP: char := '\U{00A0}'

  // ---------------------------------------------------------------------------
  // extract_text

  /** What the cleaner guarantees: no non-breaking space, no newline, and no
      whitespace at either end. */
  predicate IsClean(s: string) {
    && NBSP !in s
    && '\n' !in s
    && (s != [] ==> !IsSpace(s[0]) && !IsSpace(s[|s| - 1]))
  }

  /** `text.strip().replace('\xa0', '').replace('\n', '')`. */
  function Clean(s: string): (r: string)
    ensures IsClean(r)
    ensures r == [] <==> Strip(s) == []
    ensures r != [] ==> r[0] == Strip(s)[0] && r[|r| - 1] == Strip(s)[|Strip(s)| - 1]
  {
    var t := Strip(s);
    CleanStripped(t);
    Delete(Delete(t, NBSP), '\n')
  }

  /** Removing the non-breaking spaces and newlines of a stripped string
      leaves its ends in place. */
  lemma CleanStripped(t: string)
    requires t != [] ==> !IsSpace(t[0]) && !IsSpace(t[|t| - 1])
    ensures var r := Delete(Delete(t, NBSP), '\n');
      && IsClean(r)
      && (r == [] <==> t == [])
      && (r != [] ==> r[0] == t[0] && r[|r| - 1] == t[|t| - 1])
  {
    var u := Delete(t, NBSP);
    DeleteMembers(u, '\n');
    if t != [] {
      DeleteKeepsEnds(t, NBSP);
      DeleteKeepsEnds(u, '\n');
    }
  }

  /** A clean string is exactly one the cleaner leaves as it is. */
  lemma CleanFixpoint(s: string)
    ensures Clean(s) == s <==> IsClean(s)
  {
    if IsClean(s) {
      assert Strip(s) == s;
      DeleteAbsent(s, NBSP);
      DeleteAbsent(s, '\n');
    }
  }

  lemma CleanIdempotent(s: string)
    ensures Clean(Clean(s)) == Clean(s)
  {
    CleanFixpoint(Clean(s));
  }

  // ---------------------------------------------------------------------------
  // The infobox and the queries against it

  /** Which text of a row's second cell a query reads: its own first text
      node (`td[2]/text()`), its span's (`td[2]/span/text()`) or its anchor's
      (`td[2]/a/text()`). */
  datatype Part = CellText | SpanText | LinkText

  /** One `tr` of the infobox: the first text node of each element inside it
      (what `contains(text(), ...)` tests), and the three texts of its second
      cell a query can select, each absent when the markup has none. */
  datatype Row = Row(
    labels: seq<string>,
    cellText: Option<string>,
    spanText: Option<string>,
    linkText: Option<string>)

  /** A query of the form `.//tr[... contains(text(), needle) ...]/td[2]/...`:
      rows selected by a label substring, then one text of their second cell. */
  datatype Query = Query(needle: string, part: Part)

  function PartOf(row: Row, part: Part): Option<string> {
    match part
    case CellText => row.cellText
    case SpanText => row.spanText
    case LinkText => row.linkText
  }

  /** Some element of the row has a text containing `needle`. */
  predicate Labelled(row: Row, needle: string) {
    exists i :: 0 <= i < |row.labels| && Contains(row.labels[i], needle)
  }

  /** The row is selected by the query and yields a text. */
  predicate Hit(row: Row, q: Query) {
    Labelled(row, q.needle) && PartOf(row, q.part).Some?
  }

  /** `selector.xpath(query).get()`: the first text, in document order, that
      the query selects; `None` when it selects nothing. */
  function Select(rows: seq<Row>, q: Query): (r: Option<string>)
    ensures r.None? <==> forall i :: 0 <= i < |rows| ==> !Hit(rows[i], q)
    ensures r.Some? ==> exists i ::
      && 0 <= i < |rows| && Hit(rows[i], q) && PartOf(rows[i], q.part) == r
      && forall j :: 0 <= j < i ==> !Hit(rows[j], q)
  {
    if rows == [] then None
    else if Hit(rows[0], q) then PartOf(rows[0], q.part)
    else
      var r := Select(rows[1..], q);
      assert forall i :: 1 <= i < |rows| ==> rows[i] == rows[1..][i - 1];
      r
  }

  /** `extract_text(selector, xpath)`: the selected text, cleaned, or `""`. */
  function ExtractText(infobox: seq<Row>, q: Query): (r: string)
    ensures IsClean(r)
    ensures Select(infobox, q).None? ==> r == ""
    ensures Select(infobox, q).Some? && IsClean(Select(infobox, q).value) ==>
      r == Select(infobox, q).value
  {
    var found := Select(infobox, q);
    if found.None? then ""
    else
      CleanFixpoint(found.value);
      Clean(found.value)
  }

  // ---------------------------------------------------------------------------
  // parse: the list page

  /** One `//td[position() = 2]/a` of a list page: its first text node and its
      `href`, each absent when the anchor has none. */
  datatype Anchor = Anchor(text: Option<string>, href: Option<string>)

  /** A scheduled detail-page request: its URL and the `city_name` it carries. */
  datatype Request = Request(url: string, cityName: string)

  /** Python truthiness of an optional string: present and non-empty. */
  predicate Truthy(o: Option<string>) {
    o.Some? && o.value != ""
  }

  predicate IsLink(a: Anchor) {
    Truthy(a.text) && Truthy(a.href)
  }

  function ToRequest(a: Anchor): (r: Request)
    requires IsLink(a)
    ensures BASE_URL < r.url && r.cityName != ""
  {
    Request(BASE_URL + a.href.value, a.text.value)
  }

  /** `parse`: one request per anchor with both a name and an href, in
      document order. */
  function Parse(anchors: seq<Anchor>): (r: seq<Request>)
    ensures |r| <= |anchors|
    ensures forall i :: 0 <= i < |r| ==> BASE_URL < r[i].url && r[i].cityName != ""
  {
    if anchors == [] then []
    else if IsLink(anchors[0]) then [ToRequest(anchors[0])] + Parse(anchors[1..])
    else Parse(anchors[1..])
  }

  /** Requests come out in the order their anchors appear. */
  lemma {:induction false} ParseAppend(a: seq<Anchor>, b: seq<Anchor>)
    ensures Parse(a + b) == Parse(a) + Parse(b)
  {
    if a == [] {
      assert a + b == b;
    } else {
      assert (a + b)[0] == a[0];
      assert (a + b)[1..] == a[1..] + b;
      ParseAppend(a[1..], b);
    }
  }

  /** A request is produced exactly when some well-formed anchor produces it. */
  lemma {:induction false} ParseMembership(anchors: seq<Anchor>, q: Request)
    ensures q in Parse(anchors) <==> exists a :: a in anchors && IsLink(a) && ToRequest(a) == q
  {
    if anchors != [] {
      ParseMembership(anchors[1..], q);
      assert forall a :: a in anchors <==> a == anchors[0] || a in anchors[1..];
    }
  }

  /** Nothing is dropped exactly when every anchor is well formed. */
  lemma {:induction false} ParseKeepsAll(anchors: seq<Anchor>)
    ensures |Parse(anchors)| == |anchors| <==> forall i :: 0 <= i < |anchors| ==> IsLink(anchors[i])
  {
    if anchors != [] {
      ParseKeepsAll(anchors[1..]);
      assert forall i :: 1 <= i < |anchors| ==> anchors[i] == anchors[1..][i - 1];
    }
  }

  /** Two good rows around one without an href: exactly the two good ones, in order. */
  lemma ParseSkipsRowWithoutHref(first: string, second: string, href1: string, href2: string, other: string)
    requires first != "" && second != "" && href1 != "" && href2 != ""
    ensures Parse([Anchor(Some(first), Some(href1)), Anchor(Some(other), None), Anchor(Some(second), Some(href2))])
      == [Request(BASE_URL + href1, first), Request(BASE_URL + href2, second)]
  {
    var rows := [Anchor(Some(first), Some(href1)), Anchor(Some(other), None), Anchor(Some(second), Some(href2))];
    assert Parse(rows[2..]) == [Request(BASE_URL + href2, second)] by {
      assert rows[2..][1..] == [];
    }
    assert Parse(rows[1..]) == Parse(rows[2..]) by {
      assert rows[1..][1..] == rows[2..];
    }
  }

  // ---------------------------------------------------------------------------
  // parse_city: the detail page

  /** A fetched detail page: its resolved URL, the `city_name` its request
      carried, and the rows of its infobox tables (empty when there is none). */
  datatype Response = Response(url: string, cityName: string, infobox: seq<Row>)

  /** The six fields read from the infobox. */
  datatype Field = State | DistanceToTheCapital | TotalPopulation | TotalArea | Density | Hdi

  /** The label substring and the cell text each field is read from. */
  function QueryFor(f: Field): (q: Query)
    ensures q.needle != ""
    ensures q.part == LinkText <==> f == State
    ensures q.part == SpanText <==> f == Density
  {
    match f
    case State => Query("Unidade federativa", LinkText)
    case DistanceToTheCapital => Query("Dist\U{00E2}ncia at\U{00E9} a", CellText)
    case TotalPopulation => Query("Popula", CellText)
    case TotalArea => Query("rea total", CellText)
    case Density => Query("ensidade", SpanText)
    case Hdi => Query("IDH", CellText)
  }

  function FieldOf(c: City, f: Field): string {
    match f
    case State => c.state
    case DistanceToTheCapital => c.distanceToTheCapital
    case TotalPopulation => c.totalPopulation
    case TotalArea => c.totalArea
    case Density => c.density
    case Hdi => c.hdi
  }

  /** `parse_city`: exactly one record per page. */
  function ParseCity(response: Response): (city: City)
    ensures city.name == response.cityName && city.url == response.url
    ensures IsClean(city.state) && IsClean(city.distanceToTheCapital) && IsClean(city.totalPopulation)
    ensures IsClean(city.totalArea) && IsClean(city.density) && IsClean(city.hdi)
    ensures response.infobox == [] ==>
      city.state == city.distanceToTheCapital == city.totalPopulation == "" &&
      city.totalArea == city.density == city.hdi == ""
  {
    var rows := response.infobox;
    City(
      response.cityName,
      ExtractText(rows, QueryFor(State)),
      ExtractText(rows, QueryFor(DistanceToTheCapital)),
      ExtractText(rows, QueryFor(TotalPopulation)),
      ExtractText(rows, QueryFor(TotalArea)),
      ExtractText(rows, QueryFor(Density)),
      ExtractText(rows, QueryFor(Hdi)),
      response.url)
  }

  /** Every field goes through `extract_text` with its own query. */
  lemma FieldIsExtracted(response: Response, f: Field)
    ensures FieldOf(ParseCity(response), f) == ExtractText(response.infobox, QueryFor(f))
  {
    match f
    case State =>
    case DistanceToTheCapital =>
    case TotalPopulation =>
    case TotalArea =>
    case Density =>
    case Hdi =>
  }

  /** The first row the query hits is the one `get()` reads. */
  lemma {:induction false} SelectFirstHit(rows: seq<Row>, q: Query, i: nat)
    requires i < |rows| && Hit(rows[i], q)
    requires forall j :: 0 <= j < i ==> !Hit(rows[j], q)
    ensures Select(rows, q) == PartOf(rows[i], q.part)
  {
    if i > 0 {
      assert !Hit(rows[0], q);
      assert forall j :: 0 <= j < i - 1 ==> rows[1..][j] == rows[j + 1];
      SelectFirstHit(rows[1..], q, i - 1);
    }
  }

  /** A field is the cleaned text of the first row whose label contains the
      field's substring and whose second cell has the text the field reads. */
  lemma FieldFromFirstHit(response: Response, f: Field, i: nat)
    requires i < |response.infobox| && Hit(response.infobox[i], QueryFor(f))
    requires forall j :: 0 <= j < i ==> !Hit(response.infobox[j], QueryFor(f))
    ensures FieldOf(ParseCity(response), f) == Clean(PartOf(response.infobox[i], QueryFor(f).part).value)
  {
    FieldIsExtracted(response, f);
    SelectFirstHit(response.infobox, QueryFor(f), i);
  }

  /** A field no row provides is the empty string. */
  lemma FieldEmptyWithoutHit(response: Response, f: Field)
    requires forall j :: 0 <= j < |response.infobox| ==> !Hit(response.infobox[j], QueryFor(f))
    ensures FieldOf(ParseCity(response), f) == ""
  {
    FieldIsExtracted(response, f);
  }

  /** Label matching is by substring: "Popula" selects a "População" row. */
  lemma PopulationLabelMatches(row: Row)
    requires "Popula\U{00E7}\U{00E3}o" in row.labels
    ensures Labelled(row, QueryFor(TotalPopulation).needle)
  {
    var k :| 0 <= k < |row.labels| && row.labels[k] == "Popula\U{00E7}\U{00E3}o";
    assert OccursAt(row.labels[k], "Popula", 0);
  }
}
