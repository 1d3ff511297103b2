/** The method-and-path regular expressions, written out as functions.

    The alternatives GET, POST, PUT, DELETE and PATCH differ in their first
    or second letter, so at most one of them matches at any position. The
    item after `\s+` (a `/`, or the class `[/\w.-]`) never matches
    whitespace, so `\s+` always takes the whole whitespace run, and the
    greedy path item needs no backtracking either: at a given start
    position the regex engine finds exactly the match computed here. */
module Patterns {
  import opened Wrappers
  import opened Strings

  /** `(GET|POST|PUT|DELETE)`, the live extractor's alternation. */
  const CanvasMethods: seq<string> := ["GET", "POST", "PUT", "DELETE"]

  /** `(GET|POST|PUT|DELETE|PATCH)`, the alternate extractor's alternation. */
  const AllMethods: seq<string> := ["GET", "POST", "PUT", "DELETE", "PATCH"]

  /** The path group: `(/[^\s]+)` or `([\/\w\.\-]+)`. */
  datatype PathClass = Strict | Loose

  /** A successful match: where it starts and its two groups. */
  datatype Match = Match(start: nat, verb: string, path: string)

  /** The class `[\/\w\.\-]`. */
  predicate IsLooseChar(c: char) { c == '/' || IsWordChar(c) || c == '.' || c == '-' }

  /** What group 2 of the strict pattern can capture. */
  predicate StrictPath(p: string) {
    |p| >= 2 && p[0] == '/' && forall k :: 0 <= k < |p| ==> !IsSpace(p[k])
  }

  /** What group 2 of the loose pattern can capture. */
  predicate LoosePath(p: string) {
    |p| >= 1 && forall k :: 0 <= k < |p| ==> IsLooseChar(p[k])
  }

  predicate PathOf(cls: PathClass, p: string) {
    match cls
    case Strict => StrictPath(p)
    case Loose => LoosePath(p)
  }

  /** The end of the longest run of path-group characters that starts at
      `i`: how the greedy `[^\s]+` or `[\/\w\.\-]+` advances. */
  function PathRun(s: string, i: nat, cls: PathClass): (j: nat)
    requires i <= |s|
    ensures i <= j <= |s|
    ensures forall k :: i <= k < j ==> InPathClass(cls, s[k])
    ensures j < |s| ==> !InPathClass(cls, s[j])
    decreases |s| - i
  {
    if i < |s| && InPathClass(cls, s[i]) then PathRun(s, i + 1, cls) else i
  }

  /** The first alternative that occurs at `i`. */
  function MethodAt(s: string, i: nat, alts: seq<string>): (r: Option<string>)
    ensures r.Some? ==> r.value in alts && OccursAt(s, r.value, i)
    decreases |alts|
  {
    if |alts| == 0 then None
    else if OccursAt(s, alts[0], i) then Some(alts[0])
    else MethodAt(s, i, alts[1..])
  }

  /** No alternative is found at `i` only when none occurs there. */
  lemma {:induction false} MethodAtNone(s: string, i: nat, alts: seq<string>)
    requires MethodAt(s, i, alts).None?
    ensures forall m :: m in alts ==> !OccursAt(s, m, i)
    decreases |alts|
  {
    if |alts| > 0 {
      MethodAtNone(s, i, alts[1..]);
      assert forall m :: m in alts ==> m == alts[0] || m in alts[1..];
    }
  }

  /** The pattern `(alts)\s+(path)` tried at exactly position `i`. */
  function MatchAt(s: string, i: nat, alts: seq<string>, cls: PathClass): (r: Option<Match>)
    requires i <= |s|
    ensures r.Some? ==> r.value.start == i && r.value.verb in alts && PathOf(cls, r.value.path)
    ensures r.Some? ==> OccursAt(s, r.value.verb, i)
  {
    match MethodAt(s, i, alts)
    case None => None
    case Some(m) =>
      if ShapeAt(s, i, m, cls) then Some(Match(i, m, PathGroup(s, SkipSpaces(s, i + |m|), cls).value))
      else None
  }

  /** The path group read from position `k`, right after the whitespace. */
  function PathGroup(s: string, k: nat, cls: PathClass): (r: Option<string>)
    requires k <= |s|
    ensures r.Some? <==> PathStarts(s, k, cls)
    ensures r.Some? ==> PathOf(cls, r.value) && OccursAt(s, r.value, k)
    ensures r.Some? ==> k + |r.value| == |s| || !InPathClass(cls, s[k + |r.value|])
  {
    match cls
    case Strict =>
      if k < |s| && s[k] == '/' then
        var e := PathRun(s, k + 1, Strict);
        if e == k + 1 then None else Some(s[k..e])
      else None
    case Loose =>
      var e := PathRun(s, k, Loose);
      if e == k then None else Some(s[k..e])
  }

  /** After the whitespace run, the path group can start at `k`. */
  predicate PathStarts(s: string, k: nat, cls: PathClass) {
    match cls
    case Strict => k + 1 < |s| && s[k] == '/' && !IsSpace(s[k + 1])
    case Loose => k < |s| && IsLooseChar(s[k])
  }

  /** The characters the path group consumes after its first one. */
  predicate InPathClass(cls: PathClass, c: char) {
    match cls
    case Strict => !IsSpace(c)
    case Loose => IsLooseChar(c)
  }

  /** The text at `i` reads: alternative `m`, at least one whitespace
      character, then a possible start of the path group. */
  predicate ShapeAt(s: string, i: nat, m: string, cls: PathClass) {
    && OccursAt(s, m, i)
    && i + |m| < |s|
    && IsSpace(s[i + |m|])
    && PathStarts(s, SkipSpaces(s, i + |m|), cls)
  }

  /** The alternatives differ within their first two letters, so at most
      one of them occurs at any position. */
  predicate DistinctOpenings(alts: seq<string>) {
    forall p, q :: 0 <= p < q < |alts| ==> |alts[p]| >= 2 && |alts[q]| >= 2 && alts[p][..2] != alts[q][..2]
  }

  lemma MethodListsDistinct()
    ensures DistinctOpenings(CanvasMethods)
    ensures DistinctOpenings(AllMethods)
  {
    assert AllMethods[0][..2] == "GE" && AllMethods[1][..2] == "PO" && AllMethods[2][..2] == "PU";
    assert AllMethods[3][..2] == "DE" && AllMethods[4][..2] == "PA";
  }

  /** Every method name has at least three letters; the live alternation is
      part of the alternate one. */
  lemma MethodNames(v: string)
    ensures v in AllMethods ==> |v| >= 3
    ensures v in CanvasMethods ==> v in AllMethods
  {
  }

  /** The regex matches at `i` exactly when the text has the pattern's
      shape there: an alternative, whitespace and a possible path start. */
  lemma MatchAtIffShape(s: string, i: nat, alts: seq<string>, cls: PathClass)
    requires i <= |s| && DistinctOpenings(alts)
    ensures MatchAt(s, i, alts, cls).Some? <==> exists m :: m in alts && ShapeAt(s, i, m, cls)
  {
    var mm := MethodAt(s, i, alts);
    if mm.Some? {
      var m := mm.value;
      forall m' | m' in alts && ShapeAt(s, i, m', cls)
        ensures m' == m
      {
        OnlyOneMethodAt(s, i, alts, m, m');
      }
      MatchAtWithMethod(s, i, alts, cls, m);
    } else {
      MethodAtNone(s, i, alts);
      assert MatchAt(s, i, alts, cls).None?;
    }
  }

  lemma OnlyOneMethodAt(s: string, i: nat, alts: seq<string>, m: string, m': string)
    requires DistinctOpenings(alts)
    requires m in alts && m' in alts && OccursAt(s, m, i) && OccursAt(s, m', i)
    ensures m == m'
  {
    var p :| 0 <= p < |alts| && alts[p] == m;
    var q :| 0 <= q < |alts| && alts[q] == m';
    if 2 <= |m| && 2 <= |m'| {
      OpeningOfOccurrence(s, m, i);
      OpeningOfOccurrence(s, m', i);
    }
  }

  lemma OpeningOfOccurrence(s: string, m: string, i: nat)
    requires OccursAt(s, m, i) && 2 <= |m|
    ensures m[..2] == s[i..i + 2]
  {
  }

  /** The matcher, once the alternative `m` is known to occur at `i`. */
  lemma {:induction false} MatchAtWithMethod(s: string, i: nat, alts: seq<string>, cls: PathClass, m: string)
    requires i <= |s| && MethodAt(s, i, alts) == Some(m)
    ensures !ShapeAt(s, i, m, cls) ==> MatchAt(s, i, alts, cls).None?
    ensures ShapeAt(s, i, m, cls) ==>
      MatchAt(s, i, alts, cls) == Some(Match(i, m, PathGroup(s, SkipSpaces(s, i + |m|), cls).value))
  {
  }

  /** With distinct openings, the alternative that occurs at `i` is the one
      found. */
  lemma {:induction false} MethodAtUnique(s: string, i: nat, alts: seq<string>, m: string)
    requires DistinctOpenings(alts) && m in alts && OccursAt(s, m, i)
    ensures MethodAt(s, i, alts) == Some(m)
  {
    var found := MethodAt(s, i, alts);
    if found.None? {
      MethodAtNone(s, i, alts);
    } else {
      OnlyOneMethodAt(s, i, alts, found.value, m);
    }
  }

  /** A maximal run of path characters at `k` is the path group there. */
  lemma {:induction false} PathGroupOf(s: string, k: nat, cls: PathClass, p: string)
    requires OccursAt(s, p, k) && PathOf(cls, p)
    requires k + |p| == |s| || !InPathClass(cls, s[k + |p|])
    ensures PathGroup(s, k, cls) == Some(p)
  {
    assert s[k] == p[0];
    if cls.Strict? {
      assert s[k + 1] == p[1];
    }
    var v := PathGroup(s, k, cls).value;
    forall i | k <= i < k + |p|
      ensures InPathClass(cls, s[i])
    {
      assert s[i] == p[i - k];
    }
    forall i | k <= i < k + |v|
      ensures InPathClass(cls, s[i])
    {
      assert s[i] == v[i - k];
    }
    assert s[k..k + |v|] == v && s[k..k + |p|] == p;
  }

  /** The matcher reads back what the pattern describes: alternative `m`
      at `i`, `n > 0` whitespace characters, then a path-group run `p` that
      is not followed by another path character. */
  lemma {:induction false} MatchAtOfShape(s: string, i: nat, alts: seq<string>, cls: PathClass, m: string, n: nat, p: string)
    requires DistinctOpenings(alts) && m in alts && OccursAt(s, m, i)
    requires n > 0 && i + |m| + n <= |s| && forall k :: i + |m| <= k < i + |m| + n ==> IsSpace(s[k])
    requires OccursAt(s, p, i + |m| + n) && PathOf(cls, p)
    requires i + |m| + n + |p| == |s| || !InPathClass(cls, s[i + |m| + n + |p|])
    ensures MatchAt(s, i, alts, cls) == Some(Match(i, m, p))
  {
    var k := i + |m| + n;
    MethodAtUnique(s, i, alts, m);
    assert s[k] == p[0];
    var k' := SkipSpaces(s, i + |m|);
    assert k' == k;
    PathGroupOf(s, k, cls, p);
  }

  /** The same for text laid out as method, whitespace, path and a
      remainder that cannot extend the path: the pattern recovers exactly
      the method and the path. */
  lemma {:induction false} MatchStartRoundTrip(m: string, ws: string, p: string, rest: string, alts: seq<string>, cls: PathClass)
    requires DistinctOpenings(alts) && m in alts
    requires |ws| > 0 && AllSpace(ws) && PathOf(cls, p)
    requires |rest| == 0 || !InPathClass(cls, rest[0])
    ensures MatchStart(m + ws + p + rest, alts, cls) == Some(Match(0, m, p))
  {
    var s := m + ws + p + rest;
    assert s[..|m|] == m;
    assert s[|m| + |ws|..|m| + |ws| + |p|] == p;
    assert forall k :: |m| <= k < |m| + |ws| ==> s[k] == ws[k - |m|];
    if |rest| > 0 {
      assert s[|m| + |ws| + |p|] == rest[0];
    }
    MatchAtOfShape(s, 0, alts, cls, m, |ws|, p);
  }

  /** The attempt at every position of `s`, the end included. */
  function AllAttempts(s: string, alts: seq<string>, cls: PathClass): (r: seq<Option<Match>>)
    ensures |r| == |s| + 1
    ensures forall j :: 0 <= j <= |s| ==> r[j] == MatchAt(s, j, alts, cls)
  {
    seq(|s| + 1, j requires 0 <= j <= |s| => MatchAt(s, j, alts, cls))
  }

  /** `re.search(pattern, s)`: the leftmost position where the pattern
      matches. */
  function Search(s: string, alts: seq<string>, cls: PathClass): (r: Option<Match>)
    ensures r.Some? ==> r.value.start <= |s| && MatchAt(s, r.value.start, alts, cls) == r
    ensures r.Some? ==> r.value.verb in alts && PathOf(cls, r.value.path)
    ensures r.Some? ==> forall j :: 0 <= j < r.value.start ==> MatchAt(s, j, alts, cls).None?
    ensures r.None? <==> forall j :: 0 <= j <= |s| ==> MatchAt(s, j, alts, cls).None?
  {
    var hits := AllAttempts(s, alts, cls);
    match FirstSomeFrom(hits, 0)
    case None => None
    case Some(j) => hits[j]
  }

  /** Wherever the strict pattern matches, the loose one matches too: a
      `/` is one of the loose path characters. */
  lemma {:induction false} StrictMatchImpliesLoose(s: string, i: nat, alts: seq<string>)
    requires i <= |s| && MatchAt(s, i, alts, Strict).Some?
    ensures MatchAt(s, i, alts, Loose).Some?
  {
    var m := MethodAt(s, i, alts).value;
    MatchAtWithMethod(s, i, alts, Loose, m);
  }

  lemma {:induction false} StrictSearchImpliesLoose(s: string, alts: seq<string>)
    requires Search(s, alts, Strict).Some?
    ensures Search(s, alts, Loose).Some?
  {
    StrictMatchImpliesLoose(s, Search(s, alts, Strict).value.start, alts);
  }

  /** Where the strict pattern fails everywhere, a loose path that starts
      with `/` is the bare root `/`: any longer one would have satisfied the
      strict pattern at the same position. */
  lemma {:induction false} LooseFallbackRoot(s: string, alts: seq<string>)
    requires Search(s, alts, Strict).None? && Search(s, alts, Loose).Some?
    requires Search(s, alts, Loose).value.path[0] == '/'
    ensures Search(s, alts, Loose).value.path == "/"
  {
    LooseRootAt(s, Search(s, alts, Loose).value.start, alts);
  }

  lemma {:induction false} LooseRootAt(s: string, i: nat, alts: seq<string>)
    requires i <= |s| && MatchAt(s, i, alts, Strict).None? && MatchAt(s, i, alts, Loose).Some?
    requires MatchAt(s, i, alts, Loose).value.path[0] == '/'
    ensures MatchAt(s, i, alts, Loose).value.path == "/"
  {
    var m := MethodAt(s, i, alts).value;
    var k := SkipSpaces(s, i + |m|);
    var p := PathGroup(s, k, Loose).value;
    assert MatchAt(s, i, alts, Loose).value.path == p;
    assert !PathStarts(s, k, Strict);
    assert OccursAt(s, p, k);
  }

  /** `re.match(pattern, s)`: the pattern anchored at the start. */
  function MatchStart(s: string, alts: seq<string>, cls: PathClass): (r: Option<Match>)
    ensures r.Some? ==> r.value.start == 0 && r.value.verb in alts && PathOf(cls, r.value.path)
    ensures (forall m :: m in alts ==> !OccursAt(s, m, 0)) ==> r.None?
  {
    MatchAt(s, 0, alts, cls)
  }
}
