# Canvas API documentation scraper: a verified model of its core

The scraper visits the resource pages of the Canvas LMS REST API
documentation. From each page it extracts endpoint records with these
fields:

- resource, name, HTTP method, path and description;
- the parameters;
- the example request and response.

It then deduplicates the records and writes them to CSV and JSON. This
project models the deterministic logic of that pipeline in Dafny and
proves what it promises.

- **The crawl loop** (`main.py`). This covers:
  - the resource label `replace(".html", "").capitalize()`;
  - skipping a resource whose fetch failed;
  - the inner loop that keeps a record only when its id
    `resource_http_method_path` has not been seen and all five required
    fields are present and non-empty.

  It is modelled as a fold over the visited resources. The state is the
  seen-id set and the accepted list.
- **The live extractor** (`utils/canvas_scraper.py`). This covers:
  - the anchor-name gate;
  - the start-anchored `(GET|POST|PUT|DELETE)\s+(/[^\s]+)` match of the
    next `h3`;
  - the description;
  - the parameter rows of the next table;
  - the example texts;
  - the page-level collection of the successful sections.
- **The alternate extractor** (`utils/scraper_utils.py`). This covers:
  - `parse_api_method`: a strict regex search, then a loose fallback;
  - the description fallback chain (siblings, title, parent text, generic
    text);
  - the 500-character cap;
  - the name taken from the last path segment;
  - the heading selection of `extract_api_endpoints`.
- **The CSV projection** (`utils/data_utils.py`). This covers:
  - the row with its 200-character description cap and parameter count;
  - `extract_scope`, which reads an OAuth scope after the `Scope:` marker.

BeautifulSoup is replaced by small datatypes that carry what its lookups
return. Examples: the anchor text, the next `h3`/`p` text, the table's cell
texts, the heading's siblings, and its title and parent text. A text the
source reads with `get_text(strip=True)` arrives already in that reduced
form. Three inputs are not reduced:

- the `h4` text tested for the example markers, which the source reads
  as the unstripped `tag.text`;
- the `title` attribute, which is taken as it is;
- a bare text sibling, of which only its emptiness matters.

The three regular expressions are written out as functions over strings:

- `re.search` is the leftmost position where the pattern matches;
- `re.match` is the pattern at position 0;
- the non-greedy `<code>(.*?)</code>` is the first closing tag after the
  opening one, with no newline between them.

Files:

- `wrappers.dfy` holds `Option`, the "keep the non-None results" idiom
  (`Somes`), the first-`Some` search and order-preserving subsequences.
- `strings.dfy` holds the Python string operations used: `find`,
  `strip`, `replace`, `capitalize`, slicing with an ellipsis, and
  ASCII `\s`/`\w`.
- `patterns.dfy` holds the regular expressions.
- `endpoints.dfy` holds the record, the required-field gate and the id.
- The modules `CanvasScraper`, `ScraperUtils`, `DataUtils` and `Crawler`
  follow the source files.

Two places where the code's own comments or its two extractors disagree:

- The comment in `extract_scope` (utils/data_utils.py:76) says the scope
  runs "up to the next period or newline". Lines 77-79 cut at the first
  `.` whenever there is one, even when a newline comes before it
  (`DataUtils.DotTakesPrecedence`). The model follows the code.
- PATCH is among the methods of the alternate extractor's two patterns
  (utils/scraper_utils.py:188 and 191) but not of the live extractor's
  pattern (utils/canvas_scraper.py:62). So a `PATCH` heading yields no
  record on the live route (`CanvasScraper.PatchHeadingRejected`).

## Model

| member | source | states |
|---|---|---|
| Crawler.ResourceLabel | main.py:46 | a resource label has no capital after its first character, and its first character is not lower case |
| Crawler.ResourceLabelOfFile | main.py:46 | for a file name `name.html` whose stem holds no `.html`, the label is the capitalised stem: no occurrence can straddle the stem and the suffix, so only the suffix is removed |
| Crawler.LowerCaseFileLabel | main.py:45-46 | a lower-case dot-free stem such as `discussion_topics` plus `.html` is labelled with its first letter raised and nothing else changed (`Discussion_topics`) |
| Crawler.PageRecords | main.py:60-75 | a failed fetch contributes no records; a fetched page contributes exactly the live extractor's parse of its sections under the page's label; every record of a fetched page carries the page's label, a non-empty name, one of GET/POST/PUT/DELETE and a `/`-prefixed whitespace-free path |
| Crawler.Consider | main.py:78-92 | one pass of the inner loop never removes or changes earlier records and adds at most one; afterwards the record's id is known or the record is incomplete; it appends the record and its id exactly when the id is new and the record complete, and otherwise leaves the state alone |
| Crawler.AcceptBatch | main.py:78-92 | the loop over one extraction batch keeps the earlier records as a prefix; the records it adds form an in-order subsequence of the batch; afterwards every record of the batch is known or incomplete |
| Crawler.Crawl | main.py:37-92 | after the whole crawl, `seen` is exactly the set of ids of the accepted records; no two accepted records share an id; every accepted record passes the required-field gate; the output is an in-order subsequence of all extracted records; every record has a capitalised label and a live-extractor method; no complete extracted record is lost: its id is in `seen`, so an accepted record carries it |
| Crawler.ConsiderPreservesWf | main.py:83-92 | one pass of the loop body preserves the invariant (seen = ids of accepted, unique ids, all complete) |
| Crawler.AcceptBatchPreservesWf | main.py:78-92 | the invariant holds after every batch |
| Crawler.CrawlInvariant | main.py:44-92 | the invariant, the subsequence relation and the record shape hold after any sequence of visited resources |
| Crawler.CrawlCovers | main.py:83-92 | after any list of visited resources, the id of every complete extracted record is in the seen set |
| Crawler.CrawlFromAppend | main.py:44-97 | the outer loop is a fold: crawling `a` then `b` from a state equals crawling `a + b` from it |
| Crawler.FailedFetchSkipped | main.py:60-62 | a resource whose fetch failed leaves seen set and output unchanged; the crawl continues as if it were not in the list |
| Crawler.BatchIdempotent | main.py:83-91 | feeding the same batch a second time adds nothing |
| Crawler.RefetchAddsNothing | main.py:44-92 | visiting the same resource twice in a row with the same page adds nothing the second time |
| Crawler.GateRejectedIdStaysFree | main.py:83-92 | an incomplete record whose id is new leaves the state unchanged, so a later complete record with the same id is still accepted |
| Crawler.AcceptBatchIsFilter | main.py:78-92 | the batch loop appends exactly the records kept by the reference reading (complete, id not seen, id not claimed by an earlier complete record of the batch), in batch order |
| Crawler.AcceptBatchSeen | main.py:83-91 | the batch loop adds to `seen` exactly the ids of the batch's complete records |
| Crawler.IdInjectiveForCrawled | main.py:80 | for records with capitalised labels and one of the five method names, two ids are equal if and only if resource, method and path are equal |
| Crawler.IdNotInjective | main.py:80 | in general the id string is not injective: `("a","GET","/q_GET_/z")` and `("a_GET_/q","GET","/z")` share an id |
| Crawler.DuplicateMeansSameTriple | main.py:80-84 | in the crawl a record is dropped as already seen only when an accepted record has the same resource, method and path |
| CanvasScraper.ExtractEndpointFromSection | utils/canvas_scraper.py:34-124 | a record exists if and only if the anchor text is present and non-empty and the next `h3` matches the anchored pattern; the record's method is one of GET/POST/PUT/DELETE and its path has the strict shape, both as the anchored match reads them; the description is the next `p` text or ""; the parameters are the table's rows; the examples are the two `pre` texts or "" |
| CanvasScraper.ParseParameters | utils/canvas_scraper.py:74-88 | without a table there are no parameters; the header row is skipped; every later row with at least three cells gives a parameter from its first three cells, and nothing else does; there are at most rows − 1 of them; the list is the row-by-row reading of the rows after the header, whose order and multiplicity `ParamRowsAppend` and `ParamRowsOne` fix |
| CanvasScraper.ParamRowsAppend | utils/canvas_scraper.py:80-88 | rows are read independently: the parameters of `a + b` are those of `a` followed by those of `b` |
| CanvasScraper.ParamRowsOne | utils/canvas_scraper.py:81-88 | one row gives exactly one parameter from its first three cells when it has at least three cells, and none otherwise, so equal rows give equal, repeated parameters |
| CanvasScraper.ExampleText | utils/canvas_scraper.py:91-110 | the example text is "" when no `h4` contains the marker; otherwise it is the `pre` text after the first `h4` whose text contains the marker, or "" when that `h4` has no `pre` after it |
| CanvasScraper.ParseCanvasApiPage | utils/canvas_scraper.py:26-31 | the page's records are exactly the successful section extractions, so there are at most as many as sections |
| CanvasScraper.ParseCanvasApiPageAppend | utils/canvas_scraper.py:26-31 | sections are handled independently and their records are kept in section order |
| CanvasScraper.PageRecordsShape | utils/canvas_scraper.py:113-118 | every record of a page carries the page's resource, a non-empty name, a live method and a strict path |
| CanvasScraper.MissingParagraphFailsGate | utils/canvas_scraper.py:69-72 | with no `p` after the `h3`, the description is empty, so any record fails the crawl loop's required-field gate |
| CanvasScraper.HeadingRoundTrip | utils/canvas_scraper.py:59-66 | a heading laid out as method, whitespace and a strict path (followed by nothing or whitespace) gives a record with exactly that method and path |
| CanvasScraper.UnanchoredHeadingRejected | utils/canvas_scraper.py:62-64 | a heading that does not start with G, P or D (a leading label, lower case) yields no record |
| CanvasScraper.PatchHeadingRejected | utils/canvas_scraper.py:62-64 | a heading starting with PATCH yields no record |
| Patterns.MatchStart | utils/canvas_scraper.py:62 | the anchored match starts at 0 and captures one of the alternatives and a path of the group's class; when no alternative starts the text there is no match |
| Patterns.MatchStartRoundTrip | utils/canvas_scraper.py:62-66 | on text laid out as method, whitespace, path and a remainder that cannot extend the path, the anchored match recovers exactly that method and path |
| Patterns.MatchAt | utils/scraper_utils.py:188-191 | a match at a position starts there with an occurring alternative and a path of the group's class |
| Patterns.MatchAtIffShape | utils/scraper_utils.py:188-191 | the pattern matches at a position if and only if some alternative, at least one whitespace character and a possible path start occur there |
| Patterns.MatchAtOfShape | utils/scraper_utils.py:188-191 | where an alternative, n > 0 whitespace characters and a maximal path run occur, the match captures exactly that alternative and that path |
| Patterns.PathGroup | utils/scraper_utils.py:188-191 | the path group exists exactly when a path can start; it is of the group's class, it occurs there, and it is maximal (greedy) |
| Patterns.OnlyOneMethodAt | utils/scraper_utils.py:188 | the alternatives differ in their first two letters, so at most one of them occurs at any position |
| Patterns.Search | utils/scraper_utils.py:188 | `re.search` gives the leftmost matching position: it matches there, at no earlier position, and it is None exactly when no position matches |
| Patterns.StrictSearchImpliesLoose | utils/scraper_utils.py:188-195 | wherever the strict pattern occurs the loose one does too, so the method search fails only when the loose pattern fails |
| Patterns.LooseFallbackRoot | utils/scraper_utils.py:188-191 | when the strict pattern fails everywhere, a loose path starting with `/` is exactly `/` |
| ScraperUtils.ScanFrom | utils/scraper_utils.py:200-216 | the chosen sibling is one of the first ten, a `p`/`div` with more than ten characters, and no earlier sibling ends the scan or qualifies; when none is chosen, every qualifying sibling among the first ten comes after an end of the scan |
| ScraperUtils.RawDescription | utils/scraper_utils.py:199-231 | the description is never empty and follows the chain: the scanned sibling, else a non-empty title, else the parent text without the heading text, else `API endpoint for {path}` |
| ScraperUtils.Description | utils/scraper_utils.py:233-234 | the stored description is non-empty and at most 503 characters; it is unchanged when at most 500, and otherwise its first 500 characters followed by `...` |
| ScraperUtils.LastSegment | utils/scraper_utils.py:237-238 | `path.split("/")[-1]` is the longest slash-free suffix of the path, preceded by a `/` when shorter than it |
| ScraperUtils.EndpointName | utils/scraper_utils.py:236-240 | the name is never empty or `/`; it is the last segment when that is non-empty, else the whole path unless that is empty or `/` |
| ScraperUtils.FindMethod | utils/scraper_utils.py:187-195 | the strict search result when it has one, else the loose one; a found method is one of the five names and its path is non-empty; None exactly when the loose pattern occurs nowhere |
| ScraperUtils.Complete | utils/scraper_utils.py:236-251 | the record copies resource, method and path; its name is the last-segment name of the path and its description the capped description chain, both non-empty; parameters are empty and the example is absent; it passes the required-field gate when the resource label is non-empty |
| ScraperUtils.ParseApiMethod | utils/scraper_utils.py:170-254 | None exactly when neither pattern occurs in the heading text; otherwise the found method (one of the five) and path, the resource label, the name from the path's last segment, the capped description chain, no parameters, no example, and all required fields when the label is non-empty |
| ScraperUtils.FilterMethodHeadings | utils/scraper_utils.py:150-157 | the kept headings are those whose text satisfies the strict pattern, in their original order; `FilterMethodHeadingsAppend` and `FilterMethodHeadingsOne` fix their multiplicity |
| ScraperUtils.FilterMethodHeadingsAppend | utils/scraper_utils.py:150-155 | the filter of `a + b` is the filter of `a` followed by the filter of `b` |
| ScraperUtils.FilterMethodHeadingsOne | utils/scraper_utils.py:151-154 | a single heading is kept exactly when its text satisfies the strict pattern |
| ScraperUtils.SelectHeadings | utils/scraper_utils.py:142-157 | the classed headings when there are any, else exactly the filtered general ones |
| ScraperUtils.ParseHeadings | utils/scraper_utils.py:160-164 | the records are exactly the non-None parses, at most one per heading, one per heading when all parse; `ParseHeadingsAppend` and `ParseHeadingsOne` fix their order and multiplicity |
| ScraperUtils.ParseHeadingsAppend | utils/scraper_utils.py:160-164 | headings are parsed independently: the records of `a + b` are those of `a` followed by those of `b` |
| ScraperUtils.ParseHeadingsOne | utils/scraper_utils.py:160-164 | a single heading gives its parse when there is one and no record otherwise |
| ScraperUtils.ExtractApiEndpoints | utils/scraper_utils.py:122-167 | a failed fetch gives no records; otherwise the records are the non-None parses of the selected headings, in heading order, at most one per heading, each with the resource label and one of the five methods |
| ScraperUtils.FallbackHeadingsAllParse | utils/scraper_utils.py:150-164 | on the fallback route every kept heading parses, so there is one record per kept heading |
| ScraperUtils.ParentRemainderOfLayout | utils/scraper_utils.py:222-227 | when the parent text is the heading text followed by a remainder that does not repeat it, the parent fallback is the stripped remainder |
| ScraperUtils.LastSegmentOf | utils/scraper_utils.py:237-238 | the last segment of `prefix/seg` is `seg` |
| ScraperUtils.NameFromLastSegment | utils/scraper_utils.py:236-240 | a path ending in a non-empty slash-free segment, such as `/api/v1/users`, names its record after that segment (`users`) |
| ScraperUtils.LooseRootNamed | utils/scraper_utils.py:188-240 | when only the loose pattern finds a `/`-prefixed path, that path is `/` and the record gets the name `{method} {resource} endpoint` |
| ScraperUtils.HeadingRoundTrip | utils/scraper_utils.py:182-197 | a heading text laid out as method, whitespace and a strict path gives a record with exactly that method and path |
| DataUtils.ScopeSegment | utils/data_utils.py:68-70 | the segment is None exactly when the description has no `Scope:`; otherwise it is the text between the first marker and the next one (or the end) and holds no marker |
| DataUtils.SegmentLayout | utils/data_utils.py:69-70 | the segment after a marker is laid out right after it and ends at the end of the text or at the next marker |
| DataUtils.CodeAt | utils/data_utils.py:72 | a code match at a position reads `<code>`, then the content, then the first `</code>` after it, with no newline in the content |
| DataUtils.CodeAtNone | utils/data_utils.py:72 | the attempt at an opening tag fails only when every later closing tag comes after a newline |
| DataUtils.CodeSearch | utils/data_utils.py:72-74 | the captured content comes from the leftmost position where the non-greedy code pattern matches |
| DataUtils.FallbackScope | utils/data_utils.py:76-83 | the fallback never contains `.`; with a `.` it is the stripped text before the first one; with no `.` but a newline it is the stripped text before the first newline; with neither it is the whole stripped segment |
| DataUtils.ScopeOfSegment | utils/data_utils.py:71-83 | the first code content when there is one, else the fallback text, which holds no `.` |
| DataUtils.ExtractScope | utils/data_utils.py:53-85 | "" without a marker; otherwise the scope read from the first segment |
| DataUtils.LaterMarkersIgnored | utils/data_utils.py:69-70 | only the text between the first and the second marker is examined; what follows the second does not change the scope |
| DataUtils.CodePair | utils/data_utils.py:72-74 | the first code pair is found when nothing before it and nothing inside it starts a tag and its content has no newline |
| DataUtils.NoCodeWithoutTag | utils/data_utils.py:72-75 | text without `<` has no code match |
| DataUtils.DotTakesPrecedence | utils/data_utils.py:77-79 | a `.` decides the cut even when a newline comes before it |
| DataUtils.CodeScopeExample | utils/data_utils.py:63-74 | `Scope:` followed by a marker-free segment with a code pair gives the pair's content, whatever follows the closing tag, provided nothing before the pair or inside it starts a tag and the content has no newline (as in `Scope: <code>url:GET...</code> more text.`); what follows a second marker is ignored by `LaterMarkersIgnored` |
| DataUtils.PlainScopeExample | utils/data_utils.py:72-83 | `Scope:` followed by a marker-free segment with no code match and a `.` gives the stripped text before the first `.` (e.g. `Scope: allows read access. Other info.`); the no-code-match condition is needed, because a code pair even after the dot wins (`ScopeOfSegment`) |
| DataUtils.ProjectRow | utils/data_utils.py:36-46 | resource, name, method and path are copied; the description is unchanged up to 200 characters, else its first 200 plus `...`; the scope is read from the description; the parameter count is the number of parameters |
| DataUtils.RowCapAfterExtractorCap | utils/data_utils.py:41-43 | capping at 200 after the extractor's 500 cap equals capping the original text at 200 |

## Left out

- Browser and network: `AsyncWebCrawler`, `arun`, the configs and
  `asyncio.sleep`. The outcome of each fetch is an input (`FetchResult`,
  `Option<ContentPage>`).
- HTML parsing and CSS selection: `select`, `find`, `find_next`,
  `find_all` and document order. Their results are inputs.
  `get_text(strip=True)` is not modelled: texts arrive already reduced, as
  the library would produce them. The library joins the pieces of nested
  markup without a separator.
- Output files, debug dumps, `makedirs`, the JSON dump, `csv.DictWriter`
  and the empty-list message of `save_endpoints_to_csv`. Every `print`.
- `config.py`: the resource list and the base URL. The crawl takes any
  list of visited resources. `REQUIRED_KEYS` is inlined as
  `HasRequiredFields`.
- `extract_resource_links` (a hard-coded list) and
  `models/api_endpoint.py` (a shape with no behaviour).
- Unicode: `\s`, `\w`, `strip` and `capitalize` are modelled on ASCII
  characters only.
- DataUtils.ProjectRow: does not model the `get` defaults for an absent
  description or parameter list. Every record in the model has both
  fields, so `parameter_count` of a record without parameters is never
  reached.
- DataUtils.ScopeSegment: the `len(scope_parts) > 1` test is not a
  separate branch. It always holds once the marker occurs.
- ScraperUtils.ExtractApiEndpoints: the alternate extractor is not called
  by the crawl loop. It is modelled on its own, from the fetched page
  onward.
