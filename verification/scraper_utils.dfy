/** The alternate extractor (utils/scraper_utils.py): a method heading is
    searched for a method and path anywhere in its text, and the record is
    completed from the heading's surroundings.

    BeautifulSoup is not modelled: a `Heading` carries what the extractor
    reads around one `h2`. The heading, element-sibling and parent texts
    arrive reduced by `get_text(strip=True)`; the `title` attribute is
    taken as it is. */
module ScraperUtils {
  import opened Wrappers
  import opened Strings
  import opened Patterns
  import opened Endpoints

  /** A sibling node after the heading: an element with its tag name and
      text, or a bare text node. */
  datatype Sibling =
    | Element(tag: string, text: string)
    | TextNode(content: string)

  datatype Heading = Heading(
    text: string,             // the heading's own text
    siblings: seq<Sibling>,   // next_sibling, next_sibling.next_sibling, ...
    title: Option<string>,    // the `title` attribute
    parentText: string)       // the text of the enclosing element

  /** The two selector results of a fetched page: `h2.api_method_name` and
      `div#content h2`. */
  datatype ContentPage = ContentPage(classed: seq<Heading>, general: seq<Heading>)

  /** How many siblings the description scan looks at. */
  const ScanLimit: nat := 10

  /** Sibling text must be longer than this to serve as description. */
  const MinDescription: nat := 10

  /** Descriptions longer than this are cut and marked with "...". */
  const DescriptionCap: nat := 500

  const GenericDescriptionPrefix: string := "API endpoint for "

  /** `not current`: element nodes are always truthy, a text node is falsy
      exactly when it is empty; it ends the scan like the end of the list. */
  predicate EndsScan(x: Sibling) {
    x.TextNode? && x.content == ""
  }

  /** A `p` or `div` with more than ten characters of text. */
  predicate Describes(x: Sibling) {
    x.Element? && (x.tag == "p" || x.tag == "div") && |x.text| > MinDescription
  }

  /** The index of the sibling whose text becomes the description, looking
      at positions `i` up to the scan limit. */
  function ScanFrom(sibs: seq<Sibling>, i: nat): (r: Option<nat>)
    requires i <= |sibs|
    ensures r.Some? ==> i <= r.value < |sibs| && r.value < ScanLimit && Describes(sibs[r.value])
    ensures r.Some? ==> forall j :: i <= j < r.value ==> !EndsScan(sibs[j]) && !Describes(sibs[j])
    ensures r.None? ==> forall j :: i <= j < |sibs| && j < ScanLimit && Describes(sibs[j]) ==>
      exists k :: i <= k < j && EndsScan(sibs[k])
    decreases |sibs| - i
  {
    if i == |sibs| || i >= ScanLimit || EndsScan(sibs[i]) then None
    else if Describes(sibs[i]) then Some(i)
    else ScanFrom(sibs, i + 1)
  }

  /** `method_element.get("title")` is missing or empty. */
  predicate NoTitle(h: Heading) {
    h.title.None? || h.title.value == ""
  }

  /** The parent text with every occurrence of the heading text removed,
      stripped. */
  function ParentRemainder(h: Heading): string {
    Strip(ReplaceAll(h.parentText, h.text, ""))
  }

  /** The parent text is used when it is non-empty, differs from the
      heading text, and leaves something once the heading text is removed. */
  predicate ParentApplies(h: Heading) {
    h.parentText != "" && h.parentText != h.text && ParentRemainder(h) != ""
  }

  /** The description before the cap: sibling text, else a non-empty
      title, else the parent text without the heading text, else the
      generic text. */
  function RawDescription(h: Heading, path: string): (d: string)
    ensures d != ""
    ensures ScanFrom(h.siblings, 0).Some? ==> d == h.siblings[ScanFrom(h.siblings, 0).value].text
    ensures ScanFrom(h.siblings, 0).None? && h.title.Some? && h.title.value != "" ==> d == h.title.value
    ensures ScanFrom(h.siblings, 0).None? && NoTitle(h) && ParentApplies(h) ==> d == ParentRemainder(h)
    ensures ScanFrom(h.siblings, 0).None? && NoTitle(h) && !ParentApplies(h) ==> d == GenericDescriptionPrefix + path
  {
    var found := ScanFrom(h.siblings, 0);
    var fromSiblingOrTitle :=
      if found.Some? then h.siblings[found.value].text
      else if h.title.Some? then h.title.value
      else "";
    var fromParent :=
      if fromSiblingOrTitle == "" && h.parentText != "" && h.parentText != h.text
      then ParentRemainder(h)
      else fromSiblingOrTitle;
    if fromParent == "" then GenericDescriptionPrefix + path else fromParent
  }

  /** The description stored in the record: never empty, at most 503
      characters; a longer text keeps its first 500 characters followed by
      "...". */
  function Description(h: Heading, path: string): (d: string)
    ensures d != "" && |d| <= DescriptionCap + 3
    ensures |RawDescription(h, path)| <= DescriptionCap ==> d == RawDescription(h, path)
    ensures |RawDescription(h, path)| > DescriptionCap ==>
      d == RawDescription(h, path)[..DescriptionCap] + "..."
  {
    Truncate(RawDescription(h, path), DescriptionCap)
  }

  /** `path.split("/")[-1]`: the longest suffix without a `/`. */
  function LastSegment(p: string): (r: string)
    ensures |r| <= |p| && p[|p| - |r|..] == r
    ensures forall k :: 0 <= k < |r| ==> r[k] != '/'
    ensures |r| < |p| ==> p[|p| - |r| - 1] == '/'
  {
    if |p| == 0 || p[|p| - 1] == '/' then []
    else
      var init := LastSegment(p[..|p| - 1]);
      assert p[..|p| - 1][|p| - 1 - |init|..] == p[|p| - 1 - |init|..|p| - 1];
      init + [p[|p| - 1]]
  }

  /** The record's name: the last path segment, or the whole path when that
      segment is empty, or a generic name when this gives "/". */
  function EndpointName(verb: string, resource: string, path: string): (n: string)
    ensures n != "" && n != "/"
    ensures LastSegment(path) != "" ==> n == LastSegment(path)
    ensures LastSegment(path) == "" && path != "" && path != "/" ==> n == path
  {
    var seg := LastSegment(path);
    var name := if seg != "" then seg else path;
    if name == "" || name == "/" then verb + " " + resource + " endpoint" else name
  }

  /** The method and path read from a heading: the strict pattern anywhere
      in the text, else the loose one. */
  function FindMethod(text: string): (r: Option<Match>)
    ensures r.Some? ==> r.value.verb in AllMethods && |r.value.path| > 0
    ensures Search(text, AllMethods, Strict).Some? ==> r == Search(text, AllMethods, Strict)
    ensures Search(text, AllMethods, Strict).None? ==> r == Search(text, AllMethods, Loose)
    ensures r.None? <==> Search(text, AllMethods, Loose).None?
  {
    var strict := Search(text, AllMethods, Strict);
    assert strict.Some? ==> Search(text, AllMethods, Loose).Some? by {
      if strict.Some? {
        StrictSearchImpliesLoose(text, AllMethods);
      }
    }
    if strict.Some? then strict
    else Search(text, AllMethods, Loose)
  }

  /** The record built around a found method and path. */
  function Complete(h: Heading, resource: string, m: Match): (e: Endpoint)
    requires |m.path| > 0
    ensures e.resource == resource && e.httpMethod == m.verb && e.path == m.path
    ensures e.name != "" && e.description != "" && |e.description| <= DescriptionCap + 3
    ensures e.name == EndpointName(m.verb, resource, m.path) && e.description == Description(h, m.path)
    ensures e.parameters == [] && e.examples == NoExample
    ensures resource != "" && m.verb != "" ==> HasRequiredFields(e)
  {
    Endpoint(resource, EndpointName(m.verb, resource, m.path), m.verb, m.path, Description(h, m.path), [], NoExample)
  }

  /** `parse_api_method`: None exactly when neither pattern occurs in the
      heading text; otherwise a record with the method and path found. */
  function ParseApiMethod(h: Heading, resource: string): (r: Option<Endpoint>)
    ensures r.None? <==> FindMethod(h.text).None?
    ensures r.Some? ==> r.value.httpMethod == FindMethod(h.text).value.verb && r.value.path == FindMethod(h.text).value.path
    ensures r.Some? ==> r.value.httpMethod in AllMethods && r.value.resource == resource
    ensures r.Some? ==> r.value.parameters == [] && r.value.examples == NoExample
    ensures r.Some? ==> r.value.name == EndpointName(r.value.httpMethod, resource, r.value.path)
    ensures r.Some? ==> r.value.description == Description(h, r.value.path)
    ensures r.Some? && resource != "" ==> HasRequiredFields(r.value)
  {
    match FindMethod(h.text)
    case None => None
    case Some(m) =>
      MethodNames(m.verb);
      Some(Complete(h, resource, m))
  }

  /** A heading the general selector keeps: its text satisfies the strict
      pattern somewhere. */
  predicate LooksLikeMethod(h: Heading) {
    Search(h.text, AllMethods, Strict).Some?
  }

  /** The content filter applied to the general selector's headings: the
      headings that look like methods, in their original order. */
  function FilterMethodHeadings(hs: seq<Heading>): (r: seq<Heading>)
    ensures IsSubsequence(r, hs)
    ensures forall h :: h in r ==> LooksLikeMethod(h)
    ensures forall h :: h in hs && LooksLikeMethod(h) ==> h in r
  {
    if |hs| == 0 then []
    else
      var init := FilterMethodHeadings(hs[..|hs| - 1]);
      var last := hs[|hs| - 1];
      assert hs == hs[..|hs| - 1] + [last];
      if LooksLikeMethod(last) then
        SubsequenceExtend(init, hs[..|hs| - 1], last);
        init + [last]
      else
        SubsequenceSkip(init, hs[..|hs| - 1], last);
        init
  }

  /** The headings that are parsed: the classed ones when there are any,
      else the filtered general ones. */
  function SelectHeadings(page: ContentPage): (r: seq<Heading>)
    ensures |page.classed| > 0 ==> r == page.classed
    ensures |page.classed| == 0 ==> IsSubsequence(r, page.general) && forall h :: h in r ==> LooksLikeMethod(h)
    ensures |page.classed| == 0 ==> forall h :: h in page.general && LooksLikeMethod(h) ==> h in r
    ensures |page.classed| == 0 ==> r == FilterMethodHeadings(page.general)
  {
    if |page.classed| > 0 then page.classed else FilterMethodHeadings(page.general)
  }

  /** The parse of every heading, in heading order. */
  function Parses(hs: seq<Heading>, resource: string): (r: seq<Option<Endpoint>>)
    ensures |r| == |hs|
    ensures forall i :: 0 <= i < |hs| ==> r[i] == ParseApiMethod(hs[i], resource)
  {
    seq(|hs|, i requires 0 <= i < |hs| => ParseApiMethod(hs[i], resource))
  }

  /** The non-None parses of the headings, in heading order. */
  function ParseHeadings(hs: seq<Heading>, resource: string): (r: seq<Endpoint>)
    ensures |r| <= |hs|
    ensures forall e :: e in r ==> exists i :: 0 <= i < |hs| && ParseApiMethod(hs[i], resource) == Some(e)
    ensures forall i :: 0 <= i < |hs| && ParseApiMethod(hs[i], resource).Some? ==> ParseApiMethod(hs[i], resource).value in r
    ensures (forall i :: 0 <= i < |hs| ==> ParseApiMethod(hs[i], resource).Some?) ==> |r| == |hs|
  {
    var ps := Parses(hs, resource);
    Somes(ps)
  }

  /** `extract_api_endpoints` after the fetch: a failed fetch gives no
      records. */
  function ExtractApiEndpoints(fetched: Option<ContentPage>, resource: string): (r: seq<Endpoint>)
    ensures fetched.None? ==> r == []
    ensures fetched.Some? ==> |r| <= |SelectHeadings(fetched.value)|
    ensures forall e :: e in r ==> e.resource == resource && e.httpMethod in AllMethods
    ensures fetched.Some? ==> r == ParseHeadings(SelectHeadings(fetched.value), resource)
  {
    match fetched
    case None => []
    case Some(page) => ParseHeadings(SelectHeadings(page), resource)
  }

  /** The filter looks at each heading on its own and keeps the survivors
      in order. */
  lemma {:induction false} FilterMethodHeadingsAppend(a: seq<Heading>, b: seq<Heading>)
    ensures FilterMethodHeadings(a + b) == FilterMethodHeadings(a) + FilterMethodHeadings(b)
    decreases |b|
  {
    if |b| == 0 {
      assert a + b == a;
    } else {
      var b', x := b[..|b| - 1], b[|b| - 1];
      assert (a + b)[..|a + b| - 1] == a + b';
      assert (a + b)[|a + b| - 1] == x;
      FilterMethodHeadingsAppend(a, b');
      AppendAssoc(FilterMethodHeadings(a), FilterMethodHeadings(b'), if LooksLikeMethod(x) then [x] else []);
    }
  }

  /** A single heading is kept exactly when it looks like a method; with
      `FilterMethodHeadingsAppend` this fixes the kept list, duplicates
      included. */
  lemma {:induction false} FilterMethodHeadingsOne(h: Heading)
    ensures FilterMethodHeadings([h]) == if LooksLikeMethod(h) then [h] else []
  {
    assert [h][..0] == [];
  }

  /** Headings are parsed independently and their records kept in heading
      order. */
  lemma {:induction false} ParseHeadingsAppend(a: seq<Heading>, b: seq<Heading>, resource: string)
    ensures ParseHeadings(a + b, resource) == ParseHeadings(a, resource) + ParseHeadings(b, resource)
  {
    var pa, pb := Parses(a, resource), Parses(b, resource);
    assert Parses(a + b, resource) == pa + pb by {
      forall i | 0 <= i < |a + b|
        ensures Parses(a + b, resource)[i] == (pa + pb)[i]
      {
        if i < |a| {
          assert (a + b)[i] == a[i];
        } else {
          assert (a + b)[i] == b[i - |a|];
        }
      }
    }
    SomesAppend(pa, pb);
  }

  /** A single heading gives its parse when there is one and nothing
      otherwise. */
  lemma {:induction false} ParseHeadingsOne(h: Heading, resource: string)
    ensures ParseHeadings([h], resource) ==
      if ParseApiMethod(h, resource).Some? then [ParseApiMethod(h, resource).value] else []
  {
    var ps := Parses([h], resource);
    assert ps[..0] == [];
    assert Somes(ps[..0]) == [];
  }

  /** On the fallback route every kept heading parses, so there is one
      record per kept heading. */
  lemma {:induction false} FallbackHeadingsAllParse(page: ContentPage, resource: string)
    requires |page.classed| == 0
    ensures |ExtractApiEndpoints(Some(page), resource)| == |FilterMethodHeadings(page.general)|
  {
    var hs := SelectHeadings(page);
    forall i | 0 <= i < |hs|
      ensures ParseApiMethod(hs[i], resource).Some?
    {
      assert hs[i] in hs;
    }
  }

  /** When the parent text is the heading text followed by a remainder in
      which the heading text does not occur again, the parent fallback
      yields the stripped remainder. */
  lemma {:induction false} ParentRemainderOfLayout(h: Heading, rest: string)
    requires h.text != "" && h.parentText == h.text + rest && !Contains(rest, h.text)
    ensures ParentRemainder(h) == Strip(rest)
  {
    assert OccursAt(h.parentText, h.text, 0);
    assert h.parentText[|h.text|..] == rest;
    ReplaceAllAtOccurrence(h.parentText, h.text, "");
    ReplaceAllNoOccurrence(rest, h.text, "");
    assert "" + rest == rest;
  }

  /** The last segment is the text after the last `/`. */
  lemma {:induction false} LastSegmentOf(prefix: string, seg: string)
    requires forall k :: 0 <= k < |seg| ==> seg[k] != '/'
    ensures LastSegment(prefix + "/" + seg) == seg
    ensures LastSegment(seg) == seg
  {
    var p := prefix + "/" + seg;
    var r := LastSegment(p);
    assert p[|p| - |seg| - 1] == '/';
    assert p[|p| - |seg|..] == seg;
  }

  /** The usual case: a path such as `/api/v1/users` names its record after
      the last segment (`users`). */
  lemma {:induction false} NameFromLastSegment(verb: string, resource: string, prefix: string, seg: string)
    requires seg != "" && '/' !in seg
    ensures EndpointName(verb, resource, prefix + "/" + seg) == seg
  {
    forall k | 0 <= k < |seg|
      ensures seg[k] != '/'
    {
      assert seg[k] in seg;
    }
    LastSegmentOf(prefix, seg);
  }

  /** Where the strict pattern fails and the loose fallback finds a path
      starting with `/`, the path is the bare root and the record gets the
      generic name. */
  lemma {:induction false} LooseRootNamed(h: Heading, resource: string)
    requires Search(h.text, AllMethods, Strict).None?
    requires ParseApiMethod(h, resource).Some? && ParseApiMethod(h, resource).value.path[0] == '/'
    ensures ParseApiMethod(h, resource).value.path == "/"
    ensures ParseApiMethod(h, resource).value.name == ParseApiMethod(h, resource).value.httpMethod + " " + resource + " endpoint"
  {
    LooseFallbackRoot(h.text, AllMethods);
    assert LastSegment("/") == "";
  }

  /** A heading text laid out as method, whitespace and path gives a
      record with exactly that method and path. */
  lemma {:induction false} HeadingRoundTrip(h: Heading, resource: string, m: string, ws: string, p: string, rest: string)
    requires m in AllMethods && |ws| > 0 && AllSpace(ws) && StrictPath(p)
    requires |rest| == 0 || IsSpace(rest[0])
    requires h.text == m + ws + p + rest
    ensures ParseApiMethod(h, resource).Some?
    ensures ParseApiMethod(h, resource).value.httpMethod == m
    ensures ParseApiMethod(h, resource).value.path == p
  {
    MethodListsDistinct();
    MatchStartRoundTrip(m, ws, p, rest, AllMethods, Strict);
    assert MatchAt(h.text, 0, AllMethods, Strict) == Some(Match(0, m, p));
    assert Search(h.text, AllMethods, Strict).Some?;
  }
}
