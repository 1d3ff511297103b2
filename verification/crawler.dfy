/** The crawl loop of `crawl_canvas_api` (main.py): the resource pages are
    visited in order, a page whose fetch failed is skipped, and every record
    the live extractor returns is kept only if its id has not been seen and
    it passes the required-field gate.

    The browser is not modelled: each visited resource comes with the
    outcome of its fetch, already parsed into sections. */
module Crawler {
  import opened Wrappers
  import opened Strings
  import opened Patterns
  import opened Endpoints
  import opened CanvasScraper

  const HtmlSuffix: string := ".html"

  /** `crawler.arun(...)`: an error message, or the page's sections. */
  datatype FetchResult =
    | Failed(errorMessage: string)
    | Fetched(sections: seq<Section>)

  /** One entry of RESOURCE_LINKS with the outcome of fetching it. */
  datatype ResourceFetch = ResourceFetch(link: string, result: FetchResult)

  /** The loop state: `seen_endpoint_ids` and `all_endpoints`. */
  datatype State = State(seen: set<string>, accepted: seq<Endpoint>)

  const Start: State := State({}, [])

  /** `resource_link.replace(".html", "").capitalize()`: only the first
      character of a label can be upper case. */
  function ResourceLabel(link: string): (r: string)
    ensures NoUpperAfterFirst(r)
    ensures |r| > 0 ==> !IsLower(r[0])
  {
    var base := ReplaceAll(link, HtmlSuffix, "");
    CapitalizeShape(base);
    Capitalize(base)
  }

  /** No occurrence of ".html" starts inside a text without one, not even
      one running into a ".html" appended to it: only the first character
      of ".html" is a dot. */
  lemma {:induction false} NoSuffixAcross(name: string, k: nat)
    requires !Contains(name, HtmlSuffix) && k < |name|
    ensures !OccursAt(name + HtmlSuffix, HtmlSuffix, k)
  {
    var s := name + HtmlSuffix;
    if k + |HtmlSuffix| <= |name| {
      assert s[k..k + |HtmlSuffix|] == name[k..k + |HtmlSuffix|];
      assert OccursAt(s, HtmlSuffix, k) ==> OccursAt(name, HtmlSuffix, k);
    } else {
      OccursAtChar(s, HtmlSuffix, k, |name| - k);
      assert s[|name|] == '.' && HtmlSuffix[|name| - k] != '.';
    }
  }

  /** A file name `name.html` is labelled by its capitalised stem. */
  lemma {:induction false} ResourceLabelOfFile(name: string)
    requires !Contains(name, HtmlSuffix)
    ensures ResourceLabel(name + HtmlSuffix) == Capitalize(name)
  {
    forall j: nat | j < |name|
      ensures !OccursAt(name + HtmlSuffix, HtmlSuffix, j)
    {
      NoSuffixAcross(name, j);
    }
    ReplaceAllKeepsPrefix(name, HtmlSuffix, HtmlSuffix, "");
    ReplaceAllAtOccurrence(HtmlSuffix, HtmlSuffix, "");
    assert HtmlSuffix[|HtmlSuffix|..] == [];
    assert name + "" == name;
  }

  /** Text without a dot holds no ".html". */
  lemma {:induction false} NoSuffixWithoutDot(name: string)
    requires '.' !in name
    ensures !Contains(name, HtmlSuffix)
  {
    forall k: nat | k <= |name|
      ensures !OccursAt(name, HtmlSuffix, k)
    {
      OccursAtChar(name, HtmlSuffix, k, 0);
    }
  }

  /** Capitalising a text whose tail has no capitals only raises its first
      letter. */
  lemma {:induction false} CapitalizeLowerTail(c: char, t: string)
    requires forall i :: 0 <= i < |t| ==> !IsUpper(t[i])
    ensures Capitalize([c] + t) == [ToUpper(c)] + t
  {
    var s, r := [c] + t, Capitalize([c] + t);
    assert r[0] == ToUpper(c);
    assert r[1..] == t by {
      forall i | 0 <= i < |t|
        ensures r[1..][i] == t[i]
      {
        assert s[i + 1] == t[i];
      }
    }
    assert r == [r[0]] + r[1..];
  }

  /** A lower-case file name such as `discussion_topics.html` is labelled
      `Discussion_topics`: the first letter is raised and ".html" dropped. */
  lemma {:induction false} LowerCaseFileLabel(c: char, t: string)
    requires IsLower(c) && '.' !in t
    requires forall i :: 0 <= i < |t| ==> !IsUpper(t[i])
    ensures ResourceLabel([c] + t + HtmlSuffix) == [ToUpper(c)] + t
  {
    NoSuffixWithoutDot([c] + t);
    ResourceLabelOfFile([c] + t);
    CapitalizeLowerTail(c, t);
  }

  /** The records the live extractor returns for one fetched resource; a
      failed fetch contributes none (the `continue` at main.py:62). */
  function PageRecords(f: ResourceFetch): (r: seq<Endpoint>)
    ensures f.result.Failed? ==> r == []
    ensures f.result.Fetched? ==> r == ParseCanvasApiPage(f.result.sections, ResourceLabel(f.link))
    ensures forall e :: e in r ==>
      && e.resource == ResourceLabel(f.link) && e.name != ""
      && e.httpMethod in CanvasMethods && StrictPath(e.path)
  {
    match f.result
    case Failed(_) => []
    case Fetched(sections) =>
      PageRecordsShape(sections, ResourceLabel(f.link));
      ParseCanvasApiPage(sections, ResourceLabel(f.link))
  }

  /** The ids of a list of records. */
  function Ids(es: seq<Endpoint>): (r: set<string>)
    ensures forall e :: e in es ==> Id(e) in r
    ensures forall k :: k in r ==> exists e :: e in es && Id(e) == k
  {
    set e | e in es :: Id(e)
  }

  predicate UniqueIds(es: seq<Endpoint>) {
    forall i, j :: 0 <= i < j < |es| ==> Id(es[i]) != Id(es[j])
  }

  /** The loop invariant: `seen` is exactly the ids of the accepted
      records, no two accepted records share an id, and every accepted
      record passed the gate. */
  predicate Wf(st: State) {
    && st.seen == Ids(st.accepted)
    && UniqueIds(st.accepted)
    && forall e :: e in st.accepted ==> HasRequiredFields(e)
  }

  /** One pass of the inner loop body (main.py:78-92). */
  function Consider(st: State, e: Endpoint): (r: State)
    ensures st.accepted <= r.accepted && |r.accepted| <= |st.accepted| + 1
    ensures Id(e) in r.seen || !HasRequiredFields(e)
    ensures Id(e) !in st.seen && HasRequiredFields(e) ==>
      r.accepted == st.accepted + [e] && r.seen == st.seen + {Id(e)}
    ensures Id(e) in st.seen || !HasRequiredFields(e) ==> r == st
  {
    if Id(e) in st.seen then st
    else if !HasRequiredFields(e) then st
    else State(st.seen + {Id(e)}, st.accepted + [e])
  }

  /** The inner loop over one batch of records (main.py:78-92): earlier
      results are kept, the new ones are drawn from the batch in order, and
      afterwards every record of the batch is either known or incomplete. */
  function AcceptBatch(st: State, batch: seq<Endpoint>): (r: State)
    ensures st.accepted <= r.accepted && st.seen <= r.seen
    ensures IsSubsequence(r.accepted[|st.accepted|..], batch)
    ensures forall e :: e in batch ==> Id(e) in r.seen || !HasRequiredFields(e)
    decreases |batch|
  {
    if |batch| == 0 then st
    else
      var init := batch[..|batch| - 1];
      var x := batch[|batch| - 1];
      var mid := AcceptBatch(st, init);
      var r := Consider(mid, x);
      assert batch == init + [x];
      assert IsSubsequence(r.accepted[|st.accepted|..], batch) by {
        var t := mid.accepted[|st.accepted|..];
        if Id(x) in mid.seen || !HasRequiredFields(x) {
          assert r.accepted[|st.accepted|..] == t;
          SubsequenceSkip(t, init, x);
        } else {
          assert r.accepted[|st.accepted|..] == t + [x];
          SubsequenceExtend(t, init, x);
        }
      }
      r
  }

  /** One iteration of the outer loop (main.py:44-94). */
  function ResourceStep(st: State, f: ResourceFetch): State {
    AcceptBatch(st, PageRecords(f))
  }

  function CrawlFrom(st: State, fetches: seq<ResourceFetch>): State
    decreases |fetches|
  {
    if |fetches| == 0 then st
    else ResourceStep(CrawlFrom(st, fetches[..|fetches| - 1]), fetches[|fetches| - 1])
  }

  /** Every record extracted from the successfully fetched pages, in crawl
      order. */
  function Extracted(fetches: seq<ResourceFetch>): seq<Endpoint>
    decreases |fetches|
  {
    if |fetches| == 0 then []
    else Extracted(fetches[..|fetches| - 1]) + PageRecords(fetches[|fetches| - 1])
  }

  /** The shape of a record the crawl can produce: a capitalised resource
      label and one of the live extractor's four method names. */
  predicate Crawled(e: Endpoint) {
    NoUpperAfterFirst(e.resource) && e.httpMethod in CanvasMethods
  }

  /** `crawl_canvas_api` up to the output files: the ids of the result are
      unique and exactly the seen set, every record is complete and comes
      from an extracted page, and the records keep the crawl order. */
  function Crawl(fetches: seq<ResourceFetch>): (r: State)
    ensures Wf(r)
    ensures IsSubsequence(r.accepted, Extracted(fetches))
    ensures forall e :: e in r.accepted ==> Crawled(e)
    ensures forall e :: e in Extracted(fetches) && HasRequiredFields(e) ==> Id(e) in r.seen
  {
    CrawlInvariant(fetches);
    CrawlCovers(fetches);
    CrawlFrom(Start, fetches)
  }

  lemma {:induction false} ConsiderPreservesWf(st: State, e: Endpoint)
    requires Wf(st)
    ensures Wf(Consider(st, e))
  {
    var r := Consider(st, e);
    if Id(e) !in st.seen && HasRequiredFields(e) {
      assert Ids(r.accepted) == Ids(st.accepted) + {Id(e)} by {
        forall k | k in Ids(r.accepted)
          ensures k in Ids(st.accepted) + {Id(e)}
        {
          var e' :| e' in r.accepted && Id(e') == k;
          assert e' in st.accepted || e' == e;
        }
      }
      forall i, j | 0 <= i < j < |r.accepted|
        ensures Id(r.accepted[i]) != Id(r.accepted[j])
      {
        if j == |st.accepted| {
          assert r.accepted[i] in st.accepted;
        } else {
          assert r.accepted[i] == st.accepted[i] && r.accepted[j] == st.accepted[j];
        }
      }
    }
  }

  /** The loop invariant holds after every batch. */
  lemma {:induction false} AcceptBatchPreservesWf(st: State, batch: seq<Endpoint>)
    requires Wf(st)
    ensures Wf(AcceptBatch(st, batch))
    decreases |batch|
  {
    if |batch| > 0 {
      AcceptBatchPreservesWf(st, batch[..|batch| - 1]);
      ConsiderPreservesWf(AcceptBatch(st, batch[..|batch| - 1]), batch[|batch| - 1]);
    }
  }

  lemma {:induction false} CrawlInvariant(fetches: seq<ResourceFetch>)
    ensures Wf(CrawlFrom(Start, fetches))
    ensures IsSubsequence(CrawlFrom(Start, fetches).accepted, Extracted(fetches))
    ensures forall e :: e in CrawlFrom(Start, fetches).accepted ==> Crawled(e)
  {
    CrawlWf(fetches);
    CrawlDrawsFromPages(fetches);
    var r := CrawlFrom(Start, fetches);
    SubsequenceElements(r.accepted, Extracted(fetches));
    forall e | e in r.accepted
      ensures Crawled(e)
    {
      ExtractedShape(fetches, e);
    }
  }

  lemma {:induction false} CrawlWf(fetches: seq<ResourceFetch>)
    ensures Wf(CrawlFrom(Start, fetches))
    decreases |fetches|
  {
    if |fetches| == 0 {
      assert Ids([]) == {};
    } else {
      var init := fetches[..|fetches| - 1];
      CrawlWf(init);
      AcceptBatchPreservesWf(CrawlFrom(Start, init), PageRecords(fetches[|fetches| - 1]));
    }
  }

  lemma {:induction false} CrawlDrawsFromPages(fetches: seq<ResourceFetch>)
    ensures IsSubsequence(CrawlFrom(Start, fetches).accepted, Extracted(fetches))
    decreases |fetches|
  {
    if |fetches| == 0 {
      SubsequenceRefl<Endpoint>([]);
    } else {
      var init := fetches[..|fetches| - 1];
      var f := fetches[|fetches| - 1];
      var st := CrawlFrom(Start, init);
      CrawlDrawsFromPages(init);
      var r := AcceptBatch(st, PageRecords(f));
      var tail := r.accepted[|st.accepted|..];
      assert r.accepted == st.accepted + tail;
      SubsequenceConcat(st.accepted, Extracted(init), tail, PageRecords(f));
    }
  }

  /** No complete record is lost: the id of every complete extracted record
      ends up in the seen set, so an accepted record carries it. */
  lemma {:induction false} CrawlCovers(fetches: seq<ResourceFetch>)
    ensures forall e :: e in Extracted(fetches) && HasRequiredFields(e) ==>
      Id(e) in CrawlFrom(Start, fetches).seen
    decreases |fetches|
  {
    if |fetches| > 0 {
      var init := fetches[..|fetches| - 1];
      var f := fetches[|fetches| - 1];
      CrawlCovers(init);
      var st := CrawlFrom(Start, init);
      var r := AcceptBatch(st, PageRecords(f));
      forall e | e in Extracted(fetches) && HasRequiredFields(e)
        ensures Id(e) in r.seen
      {
        assert e in Extracted(init) || e in PageRecords(f);
      }
    }
  }

  /** Every extracted record has the crawl's shape. */
  lemma {:induction false} ExtractedShape(fetches: seq<ResourceFetch>, e: Endpoint)
    requires e in Extracted(fetches)
    ensures Crawled(e)
    decreases |fetches|
  {
    var init := fetches[..|fetches| - 1];
    if e !in Extracted(init) {
      assert e in PageRecords(fetches[|fetches| - 1]);
    } else {
      ExtractedShape(init, e);
    }
  }

  /** The crawl is a fold: crawling `a` and then `b` is crawling `a + b`. */
  lemma {:induction false} CrawlFromAppend(st: State, a: seq<ResourceFetch>, b: seq<ResourceFetch>)
    ensures CrawlFrom(st, a + b) == CrawlFrom(CrawlFrom(st, a), b)
    decreases |b|
  {
    if |b| == 0 {
      assert a + b == a;
    } else {
      var b' := b[..|b| - 1];
      assert (a + b)[..|a + b| - 1] == a + b';
      assert (a + b)[|a + b| - 1] == b[|b| - 1];
      CrawlFromAppend(st, a, b');
    }
  }

  /** A resource whose fetch failed changes nothing: the crawl goes on with
      the next resource as if the failed one were not in the list. */
  lemma {:induction false} FailedFetchSkipped(st: State, a: seq<ResourceFetch>, f: ResourceFetch, b: seq<ResourceFetch>)
    requires f.result.Failed?
    ensures CrawlFrom(st, a + [f] + b) == CrawlFrom(st, a + b)
  {
    CrawlFromAppend(st, a + [f], b);
    CrawlFromAppend(st, a, [f]);
    CrawlFromAppend(st, a, b);
    assert [f][..0] == [];
  }

  /** A batch all of whose records are known or incomplete changes nothing. */
  lemma {:induction false} CoveredBatchUnchanged(st: State, batch: seq<Endpoint>)
    requires forall e :: e in batch ==> Id(e) in st.seen || !HasRequiredFields(e)
    ensures AcceptBatch(st, batch) == st
    decreases |batch|
  {
    if |batch| > 0 {
      CoveredBatchUnchanged(st, batch[..|batch| - 1]);
      assert batch[|batch| - 1] in batch;
    }
  }

  /** Feeding the same batch a second time adds nothing. */
  lemma {:induction false} BatchIdempotent(st: State, batch: seq<Endpoint>)
    ensures AcceptBatch(AcceptBatch(st, batch), batch) == AcceptBatch(st, batch)
  {
    CoveredBatchUnchanged(AcceptBatch(st, batch), batch);
  }

  /** Visiting the same resource twice in a row, with the same page, adds
      nothing the second time. */
  lemma {:induction false} RefetchAddsNothing(st: State, fetches: seq<ResourceFetch>, f: ResourceFetch)
    ensures CrawlFrom(st, fetches + [f, f]) == CrawlFrom(st, fetches + [f])
  {
    CrawlFromAppend(st, fetches + [f], [f]);
    assert fetches + [f] + [f] == fetches + [f, f];
    BatchIdempotent(CrawlFrom(st, fetches), PageRecords(f));
  }

  /** The gate runs after the seen-check and before `seen` is updated, so
      an incomplete record does not claim its id: a later complete record
      with the same id is still accepted. */
  lemma {:induction false} GateRejectedIdStaysFree(st: State, e: Endpoint, e': Endpoint)
    requires Id(e) !in st.seen && !HasRequiredFields(e)
    requires Id(e') == Id(e) && HasRequiredFields(e')
    ensures Consider(st, e) == st
    ensures Consider(Consider(st, e), e').accepted == st.accepted + [e']
  {
  }

  /** The reference reading of the inner loop: the record at `i` is kept
      exactly when it passes the gate, its id is not already seen, and no
      earlier record of the batch that passes the gate has the same id. */
  predicate KeptAt(seen: set<string>, batch: seq<Endpoint>, i: nat)
    requires i < |batch|
  {
    && HasRequiredFields(batch[i])
    && Id(batch[i]) !in seen
    && forall j :: 0 <= j < i && HasRequiredFields(batch[j]) ==> Id(batch[j]) != Id(batch[i])
  }

  function KeptMarks(seen: set<string>, batch: seq<Endpoint>): (r: seq<Option<Endpoint>>)
    ensures |r| == |batch|
    ensures forall i :: 0 <= i < |batch| ==> r[i] == if KeptAt(seen, batch, i) then Some(batch[i]) else None
  {
    seq(|batch|, i requires 0 <= i < |batch| => if KeptAt(seen, batch, i) then Some(batch[i]) else None)
  }

  /** The ids of the records of a batch that pass the gate. */
  function GatedIds(batch: seq<Endpoint>): set<string> {
    set e | e in batch && HasRequiredFields(e) :: Id(e)
  }

  /** Extending a batch leaves the marks of its earlier records alone. */
  lemma {:induction false} KeptMarksSnoc(seen: set<string>, init: seq<Endpoint>, x: Endpoint)
    ensures KeptMarks(seen, init + [x])
      == KeptMarks(seen, init) + [if KeptAt(seen, init + [x], |init|) then Some(x) else None]
  {
    var batch := init + [x];
    var marks, m0 := KeptMarks(seen, batch), KeptMarks(seen, init);
    forall i | 0 <= i < |init|
      ensures marks[i] == m0[i]
    {
      assert forall j :: 0 <= j <= i ==> batch[j] == init[j];
    }
  }

  /** The last record of a batch is kept exactly when it passes the gate
      and its id is neither seen nor claimed by an earlier gated record. */
  lemma {:induction false} KeptLast(seen: set<string>, init: seq<Endpoint>, x: Endpoint)
    ensures KeptAt(seen, init + [x], |init|) <==>
      HasRequiredFields(x) && Id(x) !in seen + GatedIds(init)
  {
    var batch := init + [x];
    if HasRequiredFields(x) && Id(x) in GatedIds(init) {
      var e :| e in init && HasRequiredFields(e) && Id(e) == Id(x);
      var j :| 0 <= j < |init| && init[j] == e;
      assert batch[j] == e;
    }
    if !KeptAt(seen, batch, |init|) && HasRequiredFields(x) && Id(x) !in seen {
      var j :| 0 <= j < |init| && HasRequiredFields(batch[j]) && Id(batch[j]) == Id(x);
      assert batch[j] == init[j];
      assert batch[j] in init;
    }
  }

  lemma {:induction false} GatedIdsSnoc(init: seq<Endpoint>, x: Endpoint)
    ensures GatedIds(init + [x]) == GatedIds(init) + if HasRequiredFields(x) then {Id(x)} else {}
  {
    var batch := init + [x];
    forall k | k in GatedIds(batch)
      ensures k in GatedIds(init) + if HasRequiredFields(x) then {Id(x)} else {}
    {
      var e :| e in batch && HasRequiredFields(e) && Id(e) == k;
      assert e in init || e == x;
    }
  }

  /** The fold adds exactly the ids of the records that pass the gate. */
  lemma {:induction false} AcceptBatchSeen(st: State, batch: seq<Endpoint>)
    ensures AcceptBatch(st, batch).seen == st.seen + GatedIds(batch)
    decreases |batch|
  {
    if |batch| == 0 {
      assert GatedIds(batch) == {};
    } else {
      var init := batch[..|batch| - 1];
      var x := batch[|batch| - 1];
      assert batch == init + [x];
      AcceptBatchSeen(st, init);
      GatedIdsSnoc(init, x);
      var mid := AcceptBatch(st, init);
      assert AcceptBatch(st, batch) == Consider(mid, x);
    }
  }

  /** The fold agrees with the reference reading: it appends exactly the
      kept records, in batch order. */
  lemma {:induction false} AcceptBatchIsFilter(st: State, batch: seq<Endpoint>)
    ensures AcceptBatch(st, batch).accepted == st.accepted + Somes(KeptMarks(st.seen, batch))
    decreases |batch|
  {
    if |batch| == 0 {
      assert st.accepted + [] == st.accepted;
    } else {
      var init := batch[..|batch| - 1];
      var x := batch[|batch| - 1];
      assert batch == init + [x];
      AcceptBatchIsFilter(st, init);
      AcceptBatchSeen(st, init);
      KeptMarksSnoc(st.seen, init, x);
      KeptLast(st.seen, init, x);
      var last := if KeptAt(st.seen, batch, |init|) then Some(x) else None;
      var m0 := KeptMarks(st.seen, init);
      SomesAppend(m0, [last]);
      var add := if last.Some? then [x] else [];
      assert Somes([last]) == add;
      var mid := AcceptBatch(st, init);
      assert AcceptBatch(st, batch) == Consider(mid, x);
      AppendAssoc(st.accepted, Somes(m0), add);
    }
  }

  /** Every character of a method name is an upper-case letter. */
  lemma {:induction false} MethodLetters(m: string)
    requires m in AllMethods
    ensures |m| > 0 && forall k :: 0 <= k < |m| ==> IsUpper(m[k])
  {
  }

  /** Where the parts of an id sit: the label has no capital after its first
      character, the method is a run of capitals, and a `_` follows it. */
  lemma {:induction false} IdLayout(s: string, r: string, m: string, p: string)
    requires s == r + "_" + m + "_" + p
    requires NoUpperAfterFirst(r) && m in AllMethods
    ensures |s| == |r| + |m| + 2 + |p|
    ensures forall i :: 1 <= i <= |r| ==> !IsUpper(s[i])
    ensures forall i :: |r| + 1 <= i < |r| + 1 + |m| ==> IsUpper(s[i])
    ensures !IsUpper(s[|r| + 1 + |m|])
    ensures s[..|r|] == r && s[|r| + 1..|r| + 1 + |m|] == m && s[|r| + 2 + |m|..] == p
  {
    MethodLetters(m);
    assert forall i :: 1 <= i < |r| ==> s[i] == r[i];
    assert forall i :: |r| + 1 <= i < |r| + 1 + |m| ==> s[i] == m[i - |r| - 1];
  }

  /** For records the crawl can produce the id determines resource, method
      and path, so deduplicating by id is deduplicating by that triple. */
  lemma {:induction false} IdInjectiveForCrawled(e: Endpoint, e': Endpoint)
    requires NoUpperAfterFirst(e.resource) && NoUpperAfterFirst(e'.resource)
    requires e.httpMethod in AllMethods && e'.httpMethod in AllMethods
    ensures Id(e) == Id(e') <==>
      e.resource == e'.resource && e.httpMethod == e'.httpMethod && e.path == e'.path
  {
    var s, s' := Id(e), Id(e');
    IdLayout(s, e.resource, e.httpMethod, e.path);
    IdLayout(s', e'.resource, e'.httpMethod, e'.path);
    if s == s' {
      var r, r' := e.resource, e'.resource;
      assert IsUpper(s[|r| + 1]) && IsUpper(s[|r'| + 1]);
      assert |r| == |r'|;
      var m, m' := e.httpMethod, e'.httpMethod;
      assert !IsUpper(s[|r| + 1 + |m|]) && !IsUpper(s[|r| + 1 + |m'|]);
      assert |m| == |m'|;
    }
  }

  /** In general the id is not injective: a resource label holding `_GET_`
      collides with a path holding it. */
  lemma {:induction false} IdNotInjective(n: string, d: string, ps: seq<Parameter>, x: Examples)
    ensures Id(Endpoint("a", n, "GET", "/q_GET_/z", d, ps, x))
         == Id(Endpoint("a_GET_/q", n, "GET", "/z", d, ps, x))
  {
  }

  /** In the crawl a record is dropped as a duplicate only when a record
      with the same resource, method and path was accepted before it. */
  lemma {:induction false} DuplicateMeansSameTriple(st: State, e: Endpoint)
    requires Wf(st) && forall a :: a in st.accepted ==> Crawled(a)
    requires Crawled(e) && Id(e) in st.seen
    ensures exists a :: (a in st.accepted
      && a.resource == e.resource && a.httpMethod == e.httpMethod && a.path == e.path)
  {
    var a :| a in st.accepted && Id(a) == Id(e);
    MethodNames(a.httpMethod);
    MethodNames(e.httpMethod);
    IdInjectiveForCrawled(a, e);
  }
}
