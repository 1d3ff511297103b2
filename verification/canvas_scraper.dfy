/** The live extractor (utils/canvas_scraper.py), used by the crawl loop.

    BeautifulSoup is not modelled: a `Section` carries what its lookups
    return for one `div > div > h2` element. The anchor, `h3`, `p`, cell and
    `pre` texts arrive reduced by `get_text(strip=True)`; the `h4` texts are
    the unstripped `tag.text` the marker test reads. */
module CanvasScraper {
  import opened Wrappers
  import opened Strings
  import opened Patterns
  import opened Endpoints

  /** An `h4` after the section (its `.text`), with the stripped text of the
      first `pre` after it. */
  datatype SubHeading = SubHeading(text: string, nextPre: Option<string>)

  datatype Section = Section(
    anchor: Option<string>,            // section.find("a")
    nextH3: Option<string>,            // section.find_next("h3")
    nextP: Option<string>,             // h3.find_next("p")
    table: Option<seq<seq<string>>>,   // section.find_next("table"): the td texts of each tr
    subHeadings: seq<SubHeading>)      // the h4 elements after the section, in document order

  const RequestMarker: string := "Example Request"
  const ResponseMarker: string := "Example Response"

  function RowParameter(cells: seq<string>): Parameter
    requires |cells| >= 3
  {
    Parameter(cells[0], cells[1], cells[2])
  }

  /** What one row gives: a parameter from its first three cells, or
      nothing when it has fewer than three. */
  function RowCandidates(rows: seq<seq<string>>): (r: seq<Option<Parameter>>)
    ensures |r| == |rows|
    ensures forall j :: 0 <= j < |rows| ==>
      r[j] == if |rows[j]| >= 3 then Some(RowParameter(rows[j])) else None
  {
    seq(|rows|, j requires 0 <= j < |rows| =>
      if |rows[j]| >= 3 then Some(RowParameter(rows[j])) else None)
  }

  /** The parameter rows after the header: each row with at least three
      cells gives one parameter from its first three cells. */
  function ParamRows(rows: seq<seq<string>>): (ps: seq<Parameter>)
    ensures |ps| <= |rows|
    ensures forall p :: p in ps ==> exists j :: 0 <= j < |rows| && |rows[j]| >= 3 && p == RowParameter(rows[j])
    ensures forall j :: 0 <= j < |rows| && |rows[j]| >= 3 ==> RowParameter(rows[j]) in ps
    ensures (forall j :: 0 <= j < |rows| ==> |rows[j]| >= 3) ==>
      |ps| == |rows| && forall k :: 0 <= k < |ps| ==> ps[k] == RowParameter(rows[k])
  {
    Somes(RowCandidates(rows))
  }

  /** Rows are parsed independently and their parameters appended in row
      order. */
  lemma {:induction false} ParamRowsAppend(a: seq<seq<string>>, b: seq<seq<string>>)
    ensures ParamRows(a + b) == ParamRows(a) + ParamRows(b)
  {
    var ca, cb := RowCandidates(a), RowCandidates(b);
    assert RowCandidates(a + b) == ca + cb by {
      forall i | 0 <= i < |a + b|
        ensures RowCandidates(a + b)[i] == (ca + cb)[i]
      {
        if i < |a| {
          assert (a + b)[i] == a[i];
        } else {
          assert (a + b)[i] == b[i - |a|];
        }
      }
    }
    SomesAppend(ca, cb);
  }

  /** A single row gives one parameter when it has at least three cells
      and none otherwise; with `ParamRowsAppend` this fixes the parameter
      list of every table, duplicates included. */
  lemma {:induction false} ParamRowsOne(row: seq<string>)
    ensures ParamRows([row]) == if |row| >= 3 then [RowParameter(row)] else []
  {
    var c := RowCandidates([row]);
    assert c[..0] == [];
    assert Somes(c[..0]) == [];
  }

  /** `params_table.find_all("tr")[1:]` parsed row by row; no table gives
      no parameters. */
  function ParseParameters(table: Option<seq<seq<string>>>): (ps: seq<Parameter>)
    ensures table.None? ==> ps == []
    ensures table.Some? ==> |ps| <= if |table.value| == 0 then 0 else |table.value| - 1
    ensures table.Some? ==> forall p :: p in ps ==>
      exists j :: 1 <= j < |table.value| && |table.value[j]| >= 3 && p == RowParameter(table.value[j])
    ensures table.Some? ==> forall j :: 1 <= j < |table.value| && |table.value[j]| >= 3 ==>
      RowParameter(table.value[j]) in ps
    ensures table.Some? && |table.value| > 0 ==> ps == ParamRows(table.value[1..])
  {
    match table
    case None => []
    case Some(rows) =>
      if |rows| == 0 then []
      else
        var ps := ParamRows(rows[1..]);
        assert forall j :: 1 <= j < |rows| ==> rows[1..][j - 1] == rows[j];
        ps
  }

  /** The index of the first sub-heading whose text contains `marker`. */
  function FirstContaining(subs: seq<SubHeading>, marker: string, i: nat): (r: Option<nat>)
    requires i <= |subs|
    ensures r.Some? ==> i <= r.value < |subs| && Contains(subs[r.value].text, marker)
    ensures r.Some? ==> forall j :: i <= j < r.value ==> !Contains(subs[j].text, marker)
    ensures r.None? ==> forall j :: i <= j < |subs| ==> !Contains(subs[j].text, marker)
    decreases |subs| - i
  {
    if i == |subs| then None
    else if Contains(subs[i].text, marker) then Some(i)
    else FirstContaining(subs, marker, i + 1)
  }

  /** `section.find_next(h4 containing marker)`, then the text of the `pre`
      after it; "" when either is missing. */
  function ExampleText(subs: seq<SubHeading>, marker: string): (r: string)
    ensures (forall k :: 0 <= k < |subs| ==> !Contains(subs[k].text, marker)) ==> r == ""
    ensures r != "" ==> exists k :: (0 <= k < |subs| && Contains(subs[k].text, marker) && subs[k].nextPre == Some(r)
      && forall j :: 0 <= j < k ==> !Contains(subs[j].text, marker))
    ensures forall k :: (0 <= k < |subs| && Contains(subs[k].text, marker)
      && forall j :: 0 <= j < k ==> !Contains(subs[j].text, marker)) ==>
      r == if subs[k].nextPre.Some? then subs[k].nextPre.value else ""
  {
    match FirstContaining(subs, marker, 0)
    case None => ""
    case Some(k) =>
      match subs[k].nextPre
      case None => ""
      case Some(t) => t
  }

  /** `extract_endpoint_from_section`. */
  function ExtractEndpointFromSection(sec: Section, resource: string): (r: Option<Endpoint>)
    ensures r.Some? <==>
      && sec.anchor.Some? && sec.anchor.value != ""
      && sec.nextH3.Some? && MatchStart(sec.nextH3.value, CanvasMethods, Strict).Some?
    ensures r.Some? ==>
      && r.value.resource == resource
      && r.value.name == sec.anchor.value
      && r.value.httpMethod in CanvasMethods
      && StrictPath(r.value.path)
      && MatchStart(sec.nextH3.value, CanvasMethods, Strict) == Some(Match(0, r.value.httpMethod, r.value.path))
    ensures r.Some? ==> r.value.description == if sec.nextP.Some? then sec.nextP.value else ""
    ensures r.Some? ==> r.value.parameters == ParseParameters(sec.table)
    ensures r.Some? ==> (r.value.examples ==
      RequestResponse(ExampleText(sec.subHeadings, RequestMarker), ExampleText(sec.subHeadings, ResponseMarker)))
  {
    var name := if sec.anchor.Some? then sec.anchor.value else "";
    if name == "" then None
    else if sec.nextH3.None? then None
    else
      match MatchStart(sec.nextH3.value, CanvasMethods, Strict)
      case None => None
      case Some(m) =>
        var description := if sec.nextP.Some? then sec.nextP.value else "";
        Some(Endpoint(
          resource, name, m.verb, m.path, description,
          ParseParameters(sec.table),
          RequestResponse(ExampleText(sec.subHeadings, RequestMarker), ExampleText(sec.subHeadings, ResponseMarker))))
  }

  /** The extraction result of every section, in section order. */
  function SectionResults(sections: seq<Section>, resource: string): (r: seq<Option<Endpoint>>)
    ensures |r| == |sections|
    ensures forall i :: 0 <= i < |sections| ==> r[i] == ExtractEndpointFromSection(sections[i], resource)
  {
    seq(|sections|, i requires 0 <= i < |sections| => ExtractEndpointFromSection(sections[i], resource))
  }

  /** `parse_canvas_api_page`: the successful section extractions, in
      section order. */
  function ParseCanvasApiPage(sections: seq<Section>, resource: string): (r: seq<Endpoint>)
    ensures |r| <= |sections|
    ensures forall e :: e in r ==>
      exists i :: 0 <= i < |sections| && ExtractEndpointFromSection(sections[i], resource) == Some(e)
    ensures forall i :: 0 <= i < |sections| && ExtractEndpointFromSection(sections[i], resource).Some? ==>
      ExtractEndpointFromSection(sections[i], resource).value in r
  {
    Somes(SectionResults(sections, resource))
  }

  /** Every record of a page carries the page's resource, a name, one of
      the four live method names and a path of the strict shape. */
  lemma PageRecordsShape(sections: seq<Section>, resource: string)
    ensures forall e :: e in ParseCanvasApiPage(sections, resource) ==>
      e.resource == resource && e.name != "" && e.httpMethod in CanvasMethods && StrictPath(e.path)
  {
    forall e | e in ParseCanvasApiPage(sections, resource)
      ensures e.resource == resource && e.name != "" && e.httpMethod in CanvasMethods && StrictPath(e.path)
    {
      var i :| 0 <= i < |sections| && ExtractEndpointFromSection(sections[i], resource) == Some(e);
    }
  }

  /** Sections are handled independently and their results kept in order. */
  lemma {:induction false} ParseCanvasApiPageAppend(a: seq<Section>, b: seq<Section>, resource: string)
    ensures ParseCanvasApiPage(a + b, resource) == ParseCanvasApiPage(a, resource) + ParseCanvasApiPage(b, resource)
  {
    var ra, rb := SectionResults(a, resource), SectionResults(b, resource);
    assert SectionResults(a + b, resource) == ra + rb by {
      forall i | 0 <= i < |a + b|
        ensures SectionResults(a + b, resource)[i] == (ra + rb)[i]
      {
        if i < |a| {
          assert (a + b)[i] == a[i];
        } else {
          assert (a + b)[i] == b[i - |a|];
        }
      }
    }
    SomesAppend(ra, rb);
  }

  /** With no `p` after the `h3` the description is "", so the record, if
      any, fails the required-field gate of the crawl loop. */
  lemma MissingParagraphFailsGate(sec: Section, resource: string)
    requires sec.nextP.None?
    ensures ExtractEndpointFromSection(sec, resource).None?
      || !HasRequiredFields(ExtractEndpointFromSection(sec, resource).value)
  {
  }

  /** A heading laid out as method, whitespace and path gives a record
      with exactly that method and path. */
  lemma {:induction false} HeadingRoundTrip(sec: Section, resource: string, m: string, ws: string, p: string, rest: string)
    requires sec.anchor.Some? && sec.anchor.value != ""
    requires m in CanvasMethods && |ws| > 0 && AllSpace(ws) && StrictPath(p)
    requires |rest| == 0 || IsSpace(rest[0])
    requires sec.nextH3 == Some(m + ws + p + rest)
    ensures ExtractEndpointFromSection(sec, resource).Some?
    ensures ExtractEndpointFromSection(sec, resource).value.httpMethod == m
    ensures ExtractEndpointFromSection(sec, resource).value.path == p
  {
    MethodListsDistinct();
    MatchStartRoundTrip(m, ws, p, rest, CanvasMethods, Strict);
  }

  /** The match is anchored: a heading that does not start with one of the
      four method names (PATCH included, lower case included, any leading
      label included) yields no record. */
  lemma {:induction false} UnanchoredHeadingRejected(sec: Section, resource: string, prefix: string, t: string)
    requires |prefix| > 0 && prefix[0] != 'G' && prefix[0] != 'P' && prefix[0] != 'D'
    requires sec.nextH3 == Some(prefix + t)
    ensures ExtractEndpointFromSection(sec, resource).None?
  {
    var h := prefix + t;
    forall m | m in CanvasMethods
      ensures !OccursAt(h, m, 0)
    {
      assert m[0] == 'G' || m[0] == 'P' || m[0] == 'D';
    }
  }

  /** PATCH is missing from the live pattern's alternation. */
  lemma {:induction false} PatchHeadingRejected(sec: Section, resource: string, t: string)
    requires sec.nextH3 == Some("PATCH" + t)
    ensures ExtractEndpointFromSection(sec, resource).None?
  {
    var h := "PATCH" + t;
    assert h[0] == 'P' && h[1] == 'A';
    forall m | m in CanvasMethods
      ensures !OccursAt(h, m, 0)
    {
      assert |m| >= 3 && (m[0] != 'P' || m[1] != 'A');
    }
  }
}
