# octoflow core, modelled in Dafny

octoflow turns the issues of a GitHub repository into a Gantt chart. This project models the
three transforms at its centre and proves what they promise:

- **Timeline inference** (`processor.dfy`, module `Processor`, from `src/processor.ts`).
  `findStartDate` sorts an issue's events in place by `created_at`. It then returns the day of
  the first event that shows work starting. That is a `labeled` event whose label, lower-cased,
  is `in progress`, `doing` or `wip`, or a `moved_columns_in_project` event into such a column.
  Without such an event, a closed issue starts on its creation day and an open one does not
  start at all. `processIssues` turns every started issue into a bar, collects the others, and
  sorts the bars by start day. Both are imperative methods over arrays (`FindStartDate`,
  `ProcessIssues`). Each is proved against the value-level functions `InferredStart`,
  `Classify` and `Process`.
- **Array sorting** (`sorting.dfy`, module `Sorting`). `Array.prototype.sort` with a numeric
  comparator is stable. The model is an in-place insertion sort (`SortInPlace`) proved equal to
  the function `Sort`. Every stable sort yields `Sort`'s result (`StableSortIsUnique`), so the
  choice of algorithm does not matter.
- **Paginated collection** (`github.dfy`, module `GitHub`, from `src/github.ts`).
  `fetchPaginatedGitHubAPI` requests pages one by one. It follows the `rel="next"` target of
  each response's `Link` header (RFC 8288, section 3). That header is parsed by splitting on
  `,` and matching `<([^>]+)>;\s*rel="([^"]+)"` in each segment. The network is a function from
  URL to response. The regular expression is modelled as a scanner (`MatchAt`, `MatchFrom`) and
  proved to mean the pattern (`MatchAtIff`). The `reduce` is a loop (`ParseLinkHeader`), and
  the page loop is `FetchPaginated`. Both are proved against the functions `Relations` and
  `Crawl`, and `Crawl` is characterised by the chain of next links it follows.
- **CSV export** (`export.dfy`, module `Export`, from `src/export.ts`). `escapeCSVField` and the
  text-building loop of `exportToCSV` are modelled. A CSV reader in the style of section 2 of
  RFC 4180 is defined as the reference inverse. Reading the export back gives the header and one
  row per task, in order (`ExportReadsBack`).

Shared pieces: `wrappers.dfy` (`Option`, `Result`), `records.dfy` (the issue and event
records), `seqs.dfy` (`filter`, `map` and their laws) and `text.dfy` (lower-casing,
`String(n)`, `split` and `join`).

Timestamps are integers in milliseconds since the Unix epoch. `DayOf(ts)` is the UTC calendar
day holding `ts`, which is what `formatDate` names as `YYYY-MM-DD`. A bar's `start` and `end`
are therefore day numbers. `today` is a parameter, and so is the text rendering of a day used
by the CSV export (`dateText`).

## Model

| member | source | states |
|---|---|---|
| Processor.DayOfContains | src/processor.ts:20-23 | the day of an instant is the one whose midnight-to-midnight span contains it |
| Processor.DayOfMonotone | src/processor.ts:20-23 | a later instant never falls on an earlier day |
| Processor.InProgressIgnoresCase | src/processor.ts:17-18 | a status qualifies iff it equals one of `in progress`, `doing`, `wip` ignoring case |
| Processor.InProgressSpellings | src/processor.ts:18 | `Doing`, `doing`, `WIP` and `Wip` all qualify |
| Processor.InProgressShape | src/processor.ts:18 | a qualifying status has 11 characters with a space at index 2, or 5, or 3 characters |
| Processor.NotInProgressSpellings | src/processor.ts:18 | `in-progress` and `done` do not qualify |
| Processor.QualifyingKinds | src/processor.ts:44-49 | an event qualifies iff it is `labeled` with a qualifying label or `moved_columns_in_project` into a qualifying column; other kinds never qualify |
| Processor.FirstQualifying | src/processor.ts:42-53 | the position found qualifies and no earlier event does; when nothing is found no event qualifies |
| Processor.FindStartDate | src/processor.ts:38-62 | sorts the caller's array in place into the stable `created_at` order of its old contents, and returns the inferred start of the old contents |
| Processor.ScanStops | src/processor.ts:42-50 | the scan's early return at the first qualifying event gives that event's day |
| Processor.ScanEnds | src/processor.ts:55-61 | a scan without a qualifying event gives the creation day of a closed issue and nothing for an open one |
| Processor.StartIsEarliestQualifying | src/processor.ts:40-61 | the start is the day of the earliest qualifying event, whatever the input order; without one, a closed issue starts on its creation day and an open one not at all |
| Processor.InferredStartOfSorted | src/processor.ts:40 | scanning events that are already sorted gives the same start |
| Processor.LaterEventKeepsStart | src/processor.ts:40-50 | appending an event no earlier than some qualifying event leaves the start unchanged |
| Processor.ScanIssue | src/processor.ts:70-71 | looks up the issue's events (an empty array when missing), returns its start, and leaves sorted exactly the arrays looked up so far |
| Processor.ProcessIssues | src/processor.ts:64-99 | returns `Process` of the map's old contents, and every array an issue looked up now holds the sorted old contents while every other array is unchanged |
| Processor.ClassifyPartitions | src/processor.ts:69-93 | unstarted issues are exactly the issues with no start, in input order; the bars are those of the started issues, in input order |
| Processor.SidesAddUp | src/processor.ts:69-93 | started and unstarted issues together count every input issue once |
| Processor.ProcessPartitions | src/processor.ts:95-98 | the bars are sorted by start day and are a permutation of the loop's bars; the unstarted issues keep input order; the two outputs count every input issue once |
| Processor.UnstartedAreOpenAndIdle | src/processor.ts:89-91 | an unstarted issue is an open input issue none of whose events qualifies |
| Processor.TasksOfProcess | src/processor.ts:73-88 | every bar is the bar of an input issue that started, and every started issue has its bar |
| Processor.TaskForIsTaskOf | src/processor.ts:80-88 | a bar has id `String(number)` (which parses back to the number), the title, the inferred start, the closing day or `today` as end, progress 100 and `bar-closed` iff closed, 0 and `bar-open` iff open, no dependencies |
| Processor.ClassifyConcat | src/processor.ts:69-93 | classifying two lists one after the other is classifying their concatenation |
| Processor.ClassifyBars | src/processor.ts:73-88 | the loop's bars are the bars of the started issues, in input order |
| Processor.ClassifyIgnoresOrder | src/processor.ts:69-93 | reordering the input issues changes the contents of neither output |
| Processor.ProcessIgnoresOrder | src/processor.ts:64-98 | reordering the input issues gives sorted bars with the same contents and the same unstarted issues |
| Processor.MissingEntryIsEmpty | src/processor.ts:70 | an issue without an entry in the map is treated as one with no events |
| Sorting.SortPermutes | src/processor.ts:96 | sorting returns a permutation of its input |
| Sorting.SortIsSorted | src/processor.ts:96 | sorting returns a sequence non-decreasing in the key |
| Sorting.SortIsStable | src/processor.ts:96 | elements with equal keys keep their relative order |
| Sorting.StableSortIsUnique | src/processor.ts:96 | any sorted ordering of the input that keeps equal keys in order is the result of `Sort` |
| Sorting.SortOfSorted | src/processor.ts:40 | sorting a sorted sequence changes nothing |
| Sorting.SortIdempotent | src/processor.ts:40 | sorting twice is sorting once |
| Sorting.SortedFirstIsLeast | src/processor.ts:40-45 | in a sorted rearrangement, the first element passing a test has the least key of all elements that pass it |
| Sorting.InsertLast | src/processor.ts:40 | one insertion step leaves the prefix the insertion of the new element and the rest unchanged |
| Sorting.SortInPlace | src/processor.ts:40 | the array ends up holding `Sort` of its former contents |
| Text.ToLowerIsLower | src/processor.ts:44 | the result of lower-casing is lower-case |
| Text.ToLowerEqualsIff | src/processor.ts:44 | lower-casing a name equals a lower-case word iff the name equals the word ignoring case |
| Text.DecimalRoundTrip | src/processor.ts:81 | the decimal text of an integer parses back to it |
| Text.DecimalInjective | src/processor.ts:81 | distinct issue numbers have distinct ids |
| Text.JoinSplit | src/github.ts:40 | joining the pieces of a split restores the string |
| Text.SplitJoin | src/github.ts:40 | splitting a join of separator-free pieces gives them back |
| GitHub.FindFromFirst | src/github.ts:41 | the scan for a character finds its first occurrence |
| GitHub.SkipSpaceSkipsSpace | src/github.ts:41 | greedy `\s*` skips only white space |
| GitHub.MatchAtIff | src/github.ts:41 | the pattern matches at a position with groups `url` and `rel` iff the text there is `<url>;`, white space and `rel="rel"`, with no `>` in `url` and no `"` in `rel`, both non-empty |
| GitHub.MatchAtText | src/github.ts:41 | text of the pattern's form is matched with its two groups |
| GitHub.MatchAtMeans | src/github.ts:41 | a match means the text has the pattern's form with those groups |
| GitHub.MatchFromLeftmost | src/github.ts:41 | `part.match` returns the match at the leftmost position where the pattern matches, and nothing iff it matches nowhere |
| GitHub.RecordDomain | src/github.ts:40-46 | a relation is recorded iff some segment's match names it |
| GitHub.RecordTakesLast | src/github.ts:43 | the recorded URL is the one of the last segment naming the relation |
| GitHub.LaterSegmentWins | src/github.ts:40-46 | a relation maps to a URL iff the last segment naming it links that URL; segments that do not match are ignored |
| GitHub.ParseLinkHeader | src/github.ts:40-46 | the `reduce` loop returns the record of the segments' matches |
| GitHub.SegmentMatches | src/github.ts:41 | a segment written as `<url>; rel="rel"` matches its link and holds no comma |
| GitHub.FormatHeaderRoundTrip | src/github.ts:40-46 | splitting a header written as GitHub writes it and matching each segment gives back its links |
| GitHub.NextOfFormattedHeader | src/github.ts:37-51 | the next page of such a header is the URL of its last `next` link, and there is none without one |
| GitHub.RecordOfLinks | src/github.ts:40-46 | over segments that all match, a relation maps to the URL of the last link with that name |
| GitHub.ErrorCarriesStatus | src/github.ts:22-25 | the error text starts with `GitHub API error: ` followed by the status, which parses back |
| GitHub.Digest | src/github.ts:22-51 | a page fails iff its response is not OK; otherwise it holds the body's records (the array's elements or the single value) and the header's next URL |
| GitHub.CrawlFuel | src/github.ts:13-52 | once the chain ends, more fuel changes nothing |
| GitHub.CrawlDeterminate | src/github.ts:13-52 | any two fuels that reach the end of the chain give the same outcome |
| GitHub.CrawlUnique | src/github.ts:13-52 | a finished collection's outcome does not depend on the fuel |
| GitHub.ChainCons | src/github.ts:13-52 | a page naming the next one extends the chain from there by one request, and prepends its records to the chain's result |
| GitHub.CrawlFollowsChain | src/github.ts:10-54 | a finished collection requested exactly the chain of next links, and its result is the last page's failure or every page's records in order |
| GitHub.ChainIsCrawled | src/github.ts:10-54 | conversely, the chain of next links is what the collection requests |
| GitHub.NextLink | src/github.ts:37-51 | the loop's link step computes `NextTarget` of the header |
| GitHub.FetchPaginated | src/github.ts:5-55 | without a token it fails with `NotAuthenticated` before any request; with one it returns exactly the outcome of following the chain from `ApiUrl + path` |
| GitHub.CrawlStepFails | src/github.ts:22-25 | a failed page ends the collection with its status and message, discarding the records collected |
| GitHub.CrawlStepGoesOn | src/github.ts:27-51 | an OK page's records and URL join the collected part, and the collection ends iff it names no next page |
| GitHub.DropPullRequestsKeepsIssues | src/github.ts:64 | the filter keeps exactly the records without `pull_request`, each as often as it occurs, in order |
| GitHub.FetchIssues | src/github.ts:58-65 | the collection from the issues path, pull requests removed, or its failure |
| GitHub.FetchIssueEvents | src/github.ts:67-71 | the collection from the issue's events path |
| Export.EscapeField | src/export.ts:4-12 | the field is returned unchanged iff it holds no comma, quote or line feed (a lone `\r` does not count); otherwise it is wrapped in quotes |
| Export.ReadQuotedDoubled | src/export.ts:9 | reading a doubled field up to its closing quote collapses `""` to `"` and gives the field back |
| Export.EscapeRoundTrip | src/export.ts:4-12 | stripping the quotes and collapsing `""` gives back the original field |
| Export.ReadEscaped | src/export.ts:4-12 | an escaped field reads back as the field, whatever comma or line end follows it |
| Export.TakeUnquotedPrefix | src/export.ts:7-11 | an unquoted field reads up to the comma or CRLF after it |
| Export.StatusText | src/export.ts:26 | `Closed` iff progress is 100, `Open` iff it is not |
| Export.HeaderLine | src/export.ts:20-29 | no header name needs quoting, so the header line is the names `ID`, `Title`, `Start Date`, `End Date`, `Status` joined by commas, then CRLF |
| Export.DocumentStartsWithHeader | src/export.ts:15-29 | there is a document iff there are tasks, and it begins with the header line |
| Export.ExportToCsv | src/export.ts:14-33 | returns nothing for an empty task list, and otherwise the header line followed by each task's line |
| Export.ExportStart | src/export.ts:29 | before any task the text is the header line |
| Export.ExportStep | src/export.ts:30-33 | each task appends its own line |
| Export.LinesSnoc | src/export.ts:30-33 | appending a row appends its line |
| Export.ReadLine | src/export.ts:31-32 | a row's line reads back as the row |
| Export.ReadLines | src/export.ts:29-33 | lines of rows read back as the rows |
| Export.ExportReadsBack | src/export.ts:20-33 | reading the export back gives the header, then one row per task in task order with its ID, title, dates and status |

## Left out

- `src/auth.ts` and `src/main.ts` are not part of this model. The token is a parameter
  (`Option<string>`; a missing or empty one counts as absent).
- The real `fetch` with its headers, `response.json()` and `response.statusText` are replaced by a
  function from URL to `Ok(body, linkHeader)` or `NotOk(status, message)`. The message is
  whatever the error body or the status text gives. A body that fails to parse as JSON is not
  modelled.
- GitHub.FetchPaginated: requires that the chain of next links ends. A server whose next links
  loop forever would keep the source requesting without end, and that case is not modelled.
- GitHub.MatchFrom: models the regular expression for the characters it reads. JavaScript's
  `\s` is the white-space set of `IsSpace`. Surrogate pairs and the regex engine's backtracking
  are not modelled, because the pattern cannot backtrack into a different match.
- GitHub.ParseLinkHeader: keys are plain strings. A relation named `__proto__` would set the
  record's prototype in the source rather than a key, and that quirk is not modelled.
- A URL containing a comma is cut apart by the source's `split(',')`. The model does the same.
  `FormatHeaderRoundTrip` covers only links without commas.
- Text.ToLower: lower-cases ASCII letters only; the non-ASCII case mappings of `toLowerCase`
  are not modelled. The only non-ASCII letter that lower-cases to an ASCII one is the Kelvin
  sign (to `k`), which no status word contains, so the membership test is unaffected.
- `getTodayInLondon` (time zone data and the clock) is left out. `today` is a parameter.
- `new Date(...)` parsing, `toISOString` and the `YYYY-MM-DD` text are not modelled.
  Timestamps are integers and days are `DayOf`. The CSV export takes the day-to-text rendering
  as the parameter `dateText`. An invalid date (`NaN` in the source) is not modelled.
- An event with a label or project card whose `name` or `column_name` is missing would throw in
  the source. The model reads absent names as no label or no column.
- `exportToPNG`, and the `Blob`, download link and `alert` of `exportToCSV`, are not modelled
  (browser and DOM). A `null` task list is not modelled; an empty one gives no document.
- Export.ExportToCsv: appends each task's line, which is its joined fields with CRLF, in one
  step, where the source appends the joined row and then `"\r\n"`. The text is the same.
- The reader `ReadCsv` and its helpers are not in the source. They are the reference inverse
  that the export's properties are stated against.
- `Promise`/`async` are not modelled; the requests are made in sequence, as the source awaits them.
