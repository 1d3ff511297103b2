/** The tabular projection of a record (utils/data_utils.py): the CSV row
    and the OAuth scope read from the description. */
module DataUtils {
  import opened Wrappers
  import opened Strings
  import opened Endpoints

  const ScopeMarker: string := "Scope:"
  const CodeOpen: string := "<code>"
  const CodeClose: string := "</code>"

  /** Row descriptions longer than this are cut and marked with "...". */
  const RowDescriptionCap: nat := 200

  /** `description.split("Scope:")[1]`: the text after the first marker, up
      to the second one if there is one; None when there is no marker. */
  function ScopeSegment(d: string): (r: Option<string>)
    ensures r.None? <==> !Contains(d, ScopeMarker)
    ensures r.Some? ==> !Contains(r.value, ScopeMarker)
    ensures r.Some? ==> OccursAt(d, ScopeMarker + r.value, IndexOf(d, ScopeMarker))
    ensures r.Some? ==> (
      var end := IndexOf(d, ScopeMarker) + |ScopeMarker| + |r.value|;
      end == |d| || OccursAt(d, ScopeMarker, end))
  {
    var i := IndexOf(d, ScopeMarker);
    if i == -1 then None
    else
      var after := d[i + |ScopeMarker|..];
      var j := IndexOf(after, ScopeMarker);
      var seg := if j == -1 then after else after[..j];
      CutBeforeFirst(after, ScopeMarker);
      SegmentLayout(d, i, j);
      Some(seg)
  }

  /** The segment after the marker at `i` is laid out in `d` right after
      that marker, and it ends at the end of `d` or at the next marker. */
  lemma {:induction false} SegmentLayout(d: string, i: nat, j: int)
    requires OccursAt(d, ScopeMarker, i)
    requires j == IndexOf(d[i + |ScopeMarker|..], ScopeMarker)
    ensures var after := d[i + |ScopeMarker|..];
      var seg := if j == -1 then after else after[..j];
      && OccursAt(d, ScopeMarker + seg, i)
      && (i + |ScopeMarker| + |seg| == |d| || OccursAt(d, ScopeMarker, i + |ScopeMarker| + |seg|))
  {
    var k := i + |ScopeMarker|;
    var after := d[k..];
    if j == -1 {
      MarkerThenText(d, i, |after|);
    } else {
      MarkerThenText(d, i, j);
      assert d[k + j..k + j + |ScopeMarker|] == after[j..j + |ScopeMarker|];
    }
  }

  /** The marker at `i` followed by the next `n` characters. */
  lemma {:induction false} MarkerThenText(d: string, i: nat, n: nat)
    requires OccursAt(d, ScopeMarker, i) && i + |ScopeMarker| + n <= |d|
    ensures OccursAt(d, ScopeMarker + d[i + |ScopeMarker|..][..n], i)
  {
    var k := i + |ScopeMarker|;
    assert d[k..][..n] == d[k..k + n];
    assert d[i..k + n] == d[i..k] + d[k..k + n];
  }

  /** The text before the first occurrence of `p` contains no `p`. */
  lemma CutBeforeFirst(s: string, p: string)
    requires |p| > 0
    ensures IndexOf(s, p) != -1 ==> !Contains(s[..IndexOf(s, p)], p)
  {
    var j := IndexOf(s, p);
    if j != -1 {
      forall k: nat | k <= j
        ensures !OccursAt(s[..j], p, k)
      {
        if OccursAt(s[..j], p, k) {
          PrefixOccurrence(s, p, j, k);
        }
      }
    }
  }

  /** An occurrence inside a prefix is an occurrence in the whole text. */
  lemma PrefixOccurrence(s: string, p: string, j: nat, k: nat)
    requires j <= |s| && OccursAt(s[..j], p, k)
    ensures OccursAt(s, p, k)
  {
    assert s[..j][k..k + |p|] == s[k..k + |p|];
  }

  /** `<code>(.*?)</code>` tried at exactly position `p`: the shortest
      content up to a `</code>`, which `.` keeps free of newlines. */
  function CodeAt(seg: string, p: nat): (r: Option<string>)
    requires p <= |seg|
    ensures r.Some? ==>
      && OccursAt(seg, CodeOpen, p)
      && OccursAt(seg, r.value, p + |CodeOpen|)
      && OccursAt(seg, CodeClose, p + |CodeOpen| + |r.value|)
      && (forall k :: 0 <= k < |r.value| ==> r.value[k] != '\n')
      && forall q: nat :: p + |CodeOpen| <= q < p + |CodeOpen| + |r.value| ==> !OccursAt(seg, CodeClose, q)
  {
    if !OccursAt(seg, CodeOpen, p) then None
    else
      var start := p + |CodeOpen|;
      var q := IndexFrom(seg, CodeClose, start);
      if q == -1 then None
      else if exists k :: start <= k < q && seg[k] == '\n' then None
      else
        assert forall k :: 0 <= k < q - start ==> seg[start..q][k] == seg[start + k];
        Some(seg[start..q])
  }

  /** The attempt fails at an opening tag only when every closing tag after
      it comes after a newline. */
  lemma {:induction false} CodeAtNone(seg: string, p: nat)
    requires p <= |seg| && CodeAt(seg, p).None? && OccursAt(seg, CodeOpen, p)
    ensures forall q: nat :: p + |CodeOpen| <= q && OccursAt(seg, CodeClose, q) ==>
      exists k :: p + |CodeOpen| <= k < q && seg[k] == '\n'
  {
  }

  /** The attempt at every position of the segment, the end included. */
  function CodeAttempts(seg: string): (r: seq<Option<string>>)
    ensures |r| == |seg| + 1
    ensures forall p :: 0 <= p <= |seg| ==> r[p] == CodeAt(seg, p)
  {
    seq(|seg| + 1, p requires 0 <= p <= |seg| => CodeAt(seg, p))
  }

  /** `re.search(r"<code>(.*?)</code>", seg)`: the leftmost position where
      the pattern matches. */
  function CodeSearchAt(seg: string): (r: Option<nat>)
    ensures r.Some? ==> r.value <= |seg| && CodeAt(seg, r.value).Some?
    ensures r.Some? ==> forall q: nat :: q < r.value ==> CodeAt(seg, q).None?
    ensures r.None? ==> forall p: nat :: p <= |seg| ==> CodeAt(seg, p).None?
  {
    FirstSomeFrom(CodeAttempts(seg), 0)
  }

  /** The group captured by that leftmost match. */
  function CodeSearch(seg: string): (r: Option<string>)
    ensures r.Some? <==> CodeSearchAt(seg).Some?
    ensures r.Some? ==> r == CodeAt(seg, CodeSearchAt(seg).value)
  {
    match CodeSearchAt(seg)
    case None => None
    case Some(p) => CodeAt(seg, p)
  }

  /** Without a code tag: the text before the first `.`, else before the
      first newline, else all of it, stripped. */
  function FallbackScope(seg: string): (r: string)
    ensures forall k :: 0 <= k < |r| ==> r[k] != '.'
    ensures Contains(seg, ".") ==> r == Strip(seg[..IndexOf(seg, ".")])
    ensures !Contains(seg, ".") && Contains(seg, "\n") ==> r == Strip(seg[..IndexOf(seg, "\n")])
    ensures !Contains(seg, ".") && !Contains(seg, "\n") ==> r == Strip(seg)
  {
    var dot := IndexOf(seg, ".");
    var end := if dot == -1 then IndexOf(seg, "\n") else dot;
    var cut := if end == -1 then seg else seg[..end];
    NoDotBefore(seg, dot, end);
    forall k | 0 <= k < |Strip(cut)|
      ensures Strip(cut)[k] != '.'
    {
      StripChars(cut, Strip(cut)[k]);
    }
    Strip(cut)
  }

  lemma NoDotBefore(seg: string, dot: int, end: int)
    requires dot == IndexOf(seg, ".")
    requires end == -1 ==> dot == -1
    requires end != -1 ==> 0 <= end <= |seg| && (dot == -1 || end == dot)
    ensures '.' !in (if end == -1 then seg else seg[..end])
  {
    var cut := if end == -1 then seg else seg[..end];
    if '.' in cut {
      var k :| 0 <= k < |cut| && cut[k] == '.';
      assert seg[k] == cut[k];
      assert seg[k..k + 1] == ".";
      assert OccursAt(seg, ".", k) && Contains(seg, ".");
    }
  }

  /** The scope read from the segment: the first code tag's content, else
      the fallback text. */
  function ScopeOfSegment(seg: string): (r: string)
    ensures CodeSearch(seg).Some? ==> r == CodeSearch(seg).value
    ensures CodeSearch(seg).None? ==> r == FallbackScope(seg) && '.' !in r
  {
    match CodeSearch(seg)
    case Some(code) => code
    case None => FallbackScope(seg)
  }

  /** `extract_scope`: "" without a marker, else the scope read from the
      text after the first marker. */
  function ExtractScope(d: string): (r: string)
    ensures !Contains(d, ScopeMarker) ==> r == ""
    ensures Contains(d, ScopeMarker) ==> r == ScopeOfSegment(ScopeSegment(d).value)
  {
    match ScopeSegment(d)
    case None => ""
    case Some(seg) => ScopeOfSegment(seg)
  }

  /** No occurrence of the marker starts inside a marker-free prefix, not
      even one that runs into the marker after it: no proper suffix of
      "Scope:" begins with `S`. */
  lemma {:induction false} NoMarkerAcross(a: string, b: string, k: nat)
    requires !Contains(a, ScopeMarker) && k < |a|
    ensures !OccursAt(a + ScopeMarker + b, ScopeMarker, k)
  {
    var s := a + ScopeMarker + b;
    if k + |ScopeMarker| <= |a| {
      assert s[k..k + |ScopeMarker|] == a[k..k + |ScopeMarker|];
      assert OccursAt(s, ScopeMarker, k) ==> OccursAt(a, ScopeMarker, k);
    } else {
      OccursAtChar(s, ScopeMarker, k, |a| - k);
      assert s[|a|] == 'S' && ScopeMarker[|a| - k] != 'S';
    }
  }

  /** The first marker of `a + "Scope:" + b` is the one after `a`. */
  lemma {:induction false} FirstMarkerAt(a: string, b: string)
    requires !Contains(a, ScopeMarker)
    ensures IndexOf(a + ScopeMarker + b, ScopeMarker) == |a|
  {
    var s := a + ScopeMarker + b;
    assert s[|a|..|a| + |ScopeMarker|] == ScopeMarker;
    assert OccursAt(s, ScopeMarker, |a|);
    var i := IndexOf(s, ScopeMarker);
    if i < |a| {
      NoMarkerAcross(a, b, i);
    }
  }

  /** Only the text between the first and the second marker is examined:
      whatever follows the second marker does not change the scope. */
  lemma {:induction false} LaterMarkersIgnored(a: string, seg: string, rest: string)
    requires !Contains(a, ScopeMarker) && !Contains(seg, ScopeMarker)
    ensures ScopeSegment(a + ScopeMarker + seg + ScopeMarker + rest) == Some(seg)
    ensures ScopeSegment(a + ScopeMarker + seg) == Some(seg)
    ensures ExtractScope(a + ScopeMarker + seg + ScopeMarker + rest) == ScopeOfSegment(seg)
    ensures ExtractScope(a + ScopeMarker + seg) == ExtractScope(a + ScopeMarker + seg + ScopeMarker + rest)
  {
    var d := a + ScopeMarker + seg + ScopeMarker + rest;
    var after := seg + ScopeMarker + rest;
    assert d == a + ScopeMarker + after;
    FirstMarkerAt(a, after);
    assert d[|a| + |ScopeMarker|..] == after;
    FirstMarkerAt(seg, rest);
    assert after[..|seg|] == seg;
    var d' := a + ScopeMarker + seg;
    FirstMarkerAt(a, seg);
    assert d'[|a| + |ScopeMarker|..] == seg;
  }

  /** The first code pair is found when nothing before it and nothing inside
      it could start a tag, and its content has no newline. */
  lemma {:induction false} CodePair(pre: string, x: string, post: string)
    requires '<' !in pre && '<' !in x && '\n' !in x
    ensures CodeSearch(pre + CodeOpen + x + CodeClose + post) == Some(x)
  {
    var s := pre + CodeOpen + x + CodeClose + post;
    CodeAtPair(pre, x, post);
    forall q: nat | q < |pre|
      ensures CodeAt(s, q).None?
    {
      OccursAtChar(s, CodeOpen, q, 0);
      assert s[q] == pre[q];
    }
  }

  lemma {:induction false} CodeAtPair(pre: string, x: string, post: string)
    requires '<' !in x && '\n' !in x
    ensures CodeAt(pre + CodeOpen + x + CodeClose + post, |pre|) == Some(x)
  {
    var s := pre + CodeOpen + x + CodeClose + post;
    var start := |pre| + |CodeOpen|;
    var close := start + |x|;
    assert s[|pre|..start] == CodeOpen;
    assert s[start..close] == x;
    assert s[close..close + |CodeClose|] == CodeClose;
    ClosingTagAfter(s, x, start);
  }

  /** The first closing tag at or after `start` ends `x` when `x` holds no `<`. */
  lemma {:induction false} ClosingTagAfter(s: string, x: string, start: nat)
    requires '<' !in x && OccursAt(s, x, start) && OccursAt(s, CodeClose, start + |x|)
    ensures IndexFrom(s, CodeClose, start) == start + |x|
  {
    var found := IndexFrom(s, CodeClose, start);
    if found != -1 && found < start + |x| {
      OccursAtChar(s, CodeClose, found, 0);
      OccursAtChar(s, x, start, found - start);
    }
  }

  /** Text without `<` has no code tag. */
  lemma NoCodeWithoutTag(seg: string)
    requires '<' !in seg
    ensures CodeSearch(seg).None?
  {
    forall p: nat | p <= |seg|
      ensures CodeAt(seg, p).None?
    {
      OccursAtChar(seg, CodeOpen, p, 0);
    }
  }

  /** The first `.` of `a + "." + b` is the one after a dot-free `a`. */
  lemma {:induction false} FirstDotAt(a: string, b: string)
    requires '.' !in a
    ensures IndexOf(a + "." + b, ".") == |a|
  {
    var seg := a + "." + b;
    assert seg[|a|..|a| + 1] == ".";
    assert OccursAt(seg, ".", |a|);
    forall k: nat | k < |a|
      ensures !OccursAt(seg, ".", k)
    {
      OccursAtChar(seg, ".", k, 0);
      assert seg[k] == a[k];
    }
  }

  /** A `.` decides the cut even when a newline comes before it. */
  lemma {:induction false} DotTakesPrecedence(a: string, b: string)
    requires '.' !in a
    ensures FallbackScope(a + "." + b) == Strip(a)
  {
    var seg := a + "." + b;
    FirstDotAt(a, b);
    assert OccursAt(seg, ".", |a|);
    assert seg[..|a|] == a;
  }

  /** One CSV row. */
  datatype Row = Row(
    resource: string,
    name: string,
    httpMethod: string,
    path: string,
    description: string,
    scope: string,
    parameterCount: nat)

  /** The row written for one record. */
  function ProjectRow(e: Endpoint): (row: Row)
    ensures row.resource == e.resource && row.name == e.name
    ensures row.httpMethod == e.httpMethod && row.path == e.path
    ensures |row.description| <= RowDescriptionCap + 3
    ensures |e.description| <= RowDescriptionCap ==> row.description == e.description
    ensures |e.description| > RowDescriptionCap ==>
      |row.description| == RowDescriptionCap + 3
      && row.description[..RowDescriptionCap] == e.description[..RowDescriptionCap]
      && row.description[RowDescriptionCap..] == "..."
    ensures row.scope == ExtractScope(e.description)
    ensures row.parameterCount == |e.parameters|
  {
    Row(e.resource, e.name, e.httpMethod, e.path, Truncate(e.description, RowDescriptionCap),
      ExtractScope(e.description), |e.parameters|)
  }

  /** Capping the row after the extractor's 500-character cap gives the
      same text as capping the extractor's uncapped description. */
  lemma {:induction false} RowCapAfterExtractorCap(e: Endpoint, raw: string)
    requires e.description == Truncate(raw, 500)
    ensures ProjectRow(e).description == Truncate(raw, RowDescriptionCap)
  {
    TruncateCompose(raw, 500, RowDescriptionCap);
  }

  /** A code tag in the text after the marker gives its content, whatever
      marker-free text follows the closing tag. */
  lemma {:induction false} CodeScopeExample(seg: string, pre: string, x: string, post: string)
    requires seg == pre + CodeOpen + x + CodeClose + post
    requires '<' !in pre && '<' !in x && '\n' !in x && !Contains(seg, ScopeMarker)
    ensures ExtractScope(ScopeMarker + seg) == x
  {
    LaterMarkersIgnored("", seg, "");
    assert "" + ScopeMarker + seg == ScopeMarker + seg;
    CodePair(pre, x, post);
  }

  /** Without a code match the scope is the stripped text before the first
      `.`. */
  lemma {:induction false} PlainScopeExample(seg: string, a: string, b: string)
    requires seg == a + "." + b
    requires '.' !in a && !Contains(seg, ScopeMarker) && CodeSearch(seg).None?
    ensures ExtractScope(ScopeMarker + seg) == Strip(a)
  {
    LaterMarkersIgnored("", seg, "");
    assert "" + ScopeMarker + seg == ScopeMarker + seg;
    DotTakesPrecedence(a, b);
  }
}
