# Realm performance harness — verified model

The repository is a Playwright performance harness. For every target URL, a
test opens the page and records two things while it loads:
- the API calls the page makes, with their durations;
- the requests that failed, either with an HTTP error status or at the
  network level.

It writes one JSON snapshot per URL. A separate script reads the snapshots
back and turns them into four bar charts:
- average FPS;
- minimum FPS;
- load event;
- DOM content loaded.

This project models the logic of the harness that does not depend on the
browser:

- **Target URL list** (`target_urls.dfy`). The `PERF_TARGET_URL` value, or
  the built-in `https://walmartrealm.com/` when it is unset or empty, goes
  through these steps:
  - it is split on `,`;
  - each segment is trimmed with JavaScript's whitespace set;
  - one leading quote and then one trailing quote (`"` or `'`) are removed
    from each segment; this is the replacement `/^["']|["']$/g`;
  - the empty entries are dropped.
- **Network accumulation** (`network_log.dfy`).
  - `RequestLog` is a class. Its two list fields start empty, and the
    `response` and `requestfailed` handlers append to them.
  - `RecordNavigation` runs the handlers over the events of one page load,
    in order.
  - Both are proved against the specification functions `ApiCalls` and
    `FailedRequests`. These are folds over the event sequence.
  - Lemmas relate the folds to the qualifying events: their count, their
    contents and their order.
- **Graph input** (`perf_graphs.dfy`). This covers:
  - the `.json` file selection;
  - the errors for a missing directory, no selected file and unparsable
    JSON;
  - the projection of each snapshot onto its chart fields;
  - the bar label, which is the last `/`-segment of the URL after removing
    one leading `http://` or `https://`;
  - the four aligned value series.
- **Supporting definitions**:
  - `strings.dfy`: `split`, `trim`, `includes`, `startsWith` and `endsWith`;
  - `perf_types.dfy`: the record shapes;
  - `wrappers.dfy`: `Option` and `Result`.

Notes on how the model reads the code:
- The record field `method` is called `requestMethod`, because `method` is
  a Dafny keyword.
- The snapshot holds the FPS fields that the test writes (lines 138-148 of
  tests/perf/realm.perf.spec.ts). The `PerfMetrics` interface in
  tests/perf/types.ts does not declare them, but the code writes them and
  the graph script reads them, so the model follows the code.
- The optional `lcp` field is never written, so it is not in the model.
- The API-call duration is `responseEnd - requestStart`, taken at the
  moment of the `response` event.
- The snapshot file name uses the clock (`Date.now()`), not the URL's
  index, so the model says nothing about file names.

## Model

| member | source | states |
|---|---|---|
| `TargetUrls.ParseTargetUrls` | tests/perf/realm.perf.spec.ts:8-14 | The list read from `PERF_TARGET_URL`: an unset or empty value is replaced by the built-in URL; every resulting entry is non-empty and free of commas |
| `TargetUrls.DefaultWhenUnset` | tests/perf/realm.perf.spec.ts:9 | Unset or empty gives exactly `["https://walmartrealm.com/"]` |
| `TargetUrls.ParseList` | tests/perf/realm.perf.spec.ts:10-13 | The split/map/filter chain on a raw value; no entry is empty and no entry contains a comma |
| `TargetUrls.EntriesAreCleanedSegments` | tests/perf/realm.perf.spec.ts:10-13 | A string is an entry exactly when it is non-empty and is the cleaned form of one of the comma-separated segments |
| `TargetUrls.ParseListAround` | tests/perf/realm.perf.spec.ts:10-13 | The entries of `a,b` are the entries of `a` followed by those of `b`, so entries keep the order of their segments |
| `TargetUrls.ParseListSegment` | tests/perf/realm.perf.spec.ts:11-13 | A comma-free value gives its cleaned text as the only entry, or no entry when the cleaned text is empty |
| `TargetUrls.PlainUrlIsKept` | tests/perf/realm.perf.spec.ts:10-13 | A comma-free URL whose ends are neither whitespace nor quotes is the one entry, unchanged |
| `TargetUrls.LoneCommaGivesNothing` | tests/perf/realm.perf.spec.ts:11-13 | `","` gives no entry |
| `TargetUrls.QuotePairGivesNothing` | tests/perf/realm.perf.spec.ts:12-13 | `""` (two quote characters) gives no entry |
| `TargetUrls.LoneQuoteGivesNothing` | tests/perf/realm.perf.spec.ts:12-13 | A single quote character is removed as a leading quote, leaving no entry |
| `TargetUrls.QuotedSegment` | tests/perf/realm.perf.spec.ts:12-13 | A segment whose trimmed text is quoted at both ends gives exactly the text between the quotes, or nothing when that is empty |
| `TargetUrls.QuotedTextSurvives` | tests/perf/realm.perf.spec.ts:12 | Whitespace, then a quote, text, a quote and whitespace gives exactly the text: inner quotes and whitespace just inside the quotes survive |
| `TargetUrls.StripQuotes` | tests/perf/realm.perf.spec.ts:12 | At most one leading and one trailing character is removed, and only if it is a quote; a leading quote is always removed; without a leading quote a trailing quote is always removed; quotes at both ends of two or more characters leave exactly the inside; a non-quote end is kept. Together these fix the result for every input |
| `TargetUrls.LeadingQuoteOnly` | tests/perf/realm.perf.spec.ts:12 | A quote only at the start is removed and the rest is kept |
| `TargetUrls.TrailingQuoteOnly` | tests/perf/realm.perf.spec.ts:12 | A quote only at the end is removed and the rest is kept |
| `TargetUrls.CleanOpeningQuote` | tests/perf/realm.perf.spec.ts:12 | A segment made of a quote and a URL is cleaned to the URL |
| `TargetUrls.CleanClosingQuote` | tests/perf/realm.perf.spec.ts:12 | A segment made of a URL and a quote is cleaned to the URL |
| `TargetUrls.OpeningQuoteSegment` | tests/perf/realm.perf.spec.ts:10-13 | A comma-free segment that only opens with a quote gives the text after it as the one entry |
| `TargetUrls.ClosingQuoteSegment` | tests/perf/realm.perf.spec.ts:10-13 | A comma-free segment that only closes with a quote gives the text before it as the one entry |
| `TargetUrls.QuotedListGivesBothUrls` | tests/perf/realm.perf.spec.ts:10-13 | A two-URL list wrapped in one pair of quotes, such as `'https://a.com/,https://b.com/'`, gives both URLs without quotes, in order |
| `TargetUrls.CleanKeepsPlain` | tests/perf/realm.perf.spec.ts:12 | Trimming and quote removal leave text alone when its ends are neither whitespace nor quotes |
| `TargetUrls.CleanIsSubstring` | tests/perf/realm.perf.spec.ts:12 | A cleaned segment is a contiguous piece of its segment |
| `TargetUrls.CleanAddsNoComma` | tests/perf/realm.perf.spec.ts:12 | Cleaning a comma-free segment gives a comma-free text |
| `TargetUrls.Clean` | tests/perf/realm.perf.spec.ts:12 | The `map` callback, defined as `StripQuotes(Trim(segment))`: trim first, then remove the quotes; its properties are the lemmas `CleanIsSubstring`, `CleanAddsNoComma`, `CleanKeepsPlain`, `CleanOpeningQuote` and `CleanClosingQuote` |
| `TargetUrls.IsQuote` | tests/perf/realm.perf.spec.ts:12 | The character class `["']` of the regex |
| `TargetUrls.MapEach` | tests/perf/realm.perf.spec.ts:12 | The `map` step: same length, and the function is applied position by position |
| `TargetUrls.MapEachAppend` | tests/perf/realm.perf.spec.ts:12 | Mapping distributes over concatenation |
| `TargetUrls.DropEmpty` | tests/perf/realm.perf.spec.ts:13 | `filter(Boolean)`: it never grows the list, keeps no empty string, and keeps exactly the non-empty members |
| `TargetUrls.DropEmptyAppend` | tests/perf/realm.perf.spec.ts:13 | Filtering distributes over concatenation, so the kept entries stay in order |
| `TargetUrls.KeptAreMapped` | tests/perf/realm.perf.spec.ts:12-13 | After `map` and `filter(Boolean)`, a string is kept exactly when it is non-empty and is the image of some segment |
| `Strings.Split` | tests/perf/realm.perf.spec.ts:11 | `split(',')` always yields at least one piece (the empty string yields one empty piece), and no piece contains the separator |
| `Strings.JoinSplit` | tests/perf/realm.perf.spec.ts:11 | Joining the pieces with the separator gives back the original string |
| `Strings.SplitJoin` | tests/perf/realm.perf.spec.ts:11 | Splitting joined separator-free pieces gives the pieces back |
| `Strings.SplitAround` | tests/perf/realm.perf.spec.ts:11 | A separator splits a string into the pieces on its left followed by the pieces on its right |
| `Strings.SplitWithoutSeparator` | tests/perf/realm.perf.spec.ts:11 | A string without the separator is one piece |
| `Strings.Trim` | tests/perf/realm.perf.spec.ts:12 | `trim()` returns the part of the string between its leading and its trailing whitespace, and both ends of a non-empty result are not whitespace |
| `Strings.TrimStart` | tests/perf/realm.perf.spec.ts:12 | The leading-whitespace half of `trim()`: it returns a suffix, only whitespace is removed, and the result does not start with whitespace |
| `Strings.TrimEnd` | tests/perf/realm.perf.spec.ts:12 | The trailing-whitespace half of `trim()`, symmetric to `TrimStart` |
| `Strings.TrimPadded` | tests/perf/realm.perf.spec.ts:12 | Trimming whitespace-padded text whose ends are not whitespace gives exactly that text |
| `Strings.IsWhitespace` | tests/perf/realm.perf.spec.ts:12 | The characters `trim()` removes: the ECMAScript WhiteSpace and LineTerminator code points (tab, line feed, vertical tab, form feed, carriage return, space, no-break space, U+1680, U+2000 to U+200A, U+2028, U+2029, U+202F, U+205F, U+3000, U+FEFF) |
| `Strings.StartsWith` | scripts/generate-perf-graphs.ts:49 | Defined as: the prefix of the same length equals the given string; used for the `^` anchor of the scheme regex |
| `Strings.EndsWith` | scripts/generate-perf-graphs.ts:26 | `endsWith`, defined as: the suffix of the same length equals the given string |
| `Strings.Contains` | tests/perf/realm.perf.spec.ts:64 | `includes` is true exactly when the substring occurs at some index |
| `NetworkLog.IsApiResponse` | tests/perf/realm.perf.spec.ts:64 | A `response` event whose URL contains `/api/` |
| `NetworkLog.IsFailure` | tests/perf/realm.perf.spec.ts:72-89 | A `response` event with status 400 or more, or any `requestfailed` event |
| `NetworkLog.ApiCallsOf` | tests/perf/realm.perf.spec.ts:63-70 | What the `response` handler pushes onto `apiCalls` for one event: one record with the URL and `responseEnd - requestStart` when the URL contains `/api/`, nothing otherwise, and nothing for a `requestfailed` event |
| `NetworkLog.FailuresOf` | tests/perf/realm.perf.spec.ts:72-89 | What the handlers push onto `failedRequests` for one event: a record with the status and no failure text for a response with status 400 or more, a record with the error text and no status for a failed request, nothing otherwise |
| `NetworkLog.Collect` | tests/perf/realm.perf.spec.ts:60-89 | An append-only list: it starts empty and receives, for each event in turn, the records that event adds |
| `NetworkLog.ApiCalls` | tests/perf/realm.perf.spec.ts:60-70 | The specification of `apiCalls` after a sequence of events: `Collect` with `ApiCallsOf` |
| `NetworkLog.FailedRequests` | tests/perf/realm.perf.spec.ts:61-89 | The specification of `failedRequests` after a sequence of events: `Collect` with `FailuresOf` |
| `NetworkLog.RequestLog.constructor` | tests/perf/realm.perf.spec.ts:60-61 | Both lists start empty |
| `NetworkLog.RequestLog.OnResponse` | tests/perf/realm.perf.spec.ts:63-80 | The response handler: it appends one API-call record exactly when the URL contains `/api/`, and one failed-request record with the status and no failure text exactly when the status is 400 or more, independently of each other; nothing else changes and the log invariant is kept |
| `NetworkLog.RequestLog.OnRequestFailed` | tests/perf/realm.perf.spec.ts:82-89 | The requestfailed handler: it appends one failed-request record with the error text (absent when the browser gives none) and no status; `apiCalls` is unchanged |
| `NetworkLog.RecordNavigation` | tests/perf/realm.perf.spec.ts:60-89 | Fresh lists, then the handlers run for each event in order; the lists that result are exactly `ApiCalls(events)` and `FailedRequests(events)` |
| `NetworkLog.ResponseStep` | tests/perf/realm.perf.spec.ts:63-80 | On the fold: a response extends `apiCalls` when its URL contains `/api/` and `failedRequests` when its status is 400 or more, and so can extend both |
| `NetworkLog.RequestFailedStep` | tests/perf/realm.perf.spec.ts:82-89 | On the fold: a failed request adds exactly one failed-request record and leaves `apiCalls` alone |
| `NetworkLog.ApiCallsInEventOrder` | tests/perf/realm.perf.spec.ts:64-69 | `apiCalls` has one record per response whose URL contains `/api/`, in event order, with that URL and `responseEnd - requestStart` |
| `NetworkLog.FailedRequestsInEventOrder` | tests/perf/realm.perf.spec.ts:72-88 | `failedRequests` has one record per error response or failed request, in event order, with the fields each handler sets |
| `NetworkLog.ListsOnlyGrow` | tests/perf/realm.perf.spec.ts:60-89 | The lists after any prefix of the events are prefixes of the lists after all of them |
| `NetworkLog.CollectAppend` | tests/perf/realm.perf.spec.ts:66-83 | Appending events appends their records (the handlers only `push`) |
| `NetworkLog.CollectAtPositions` | tests/perf/realm.perf.spec.ts:63-89 | When each event adds at most one record, the list holds one record per qualifying event, in event order |
| `NetworkLog.Positions` | tests/perf/realm.perf.spec.ts:63-89 | The reference list of qualifying event indices: each index is in range and its event qualifies |
| `NetworkLog.PositionsOrderedAndComplete` | tests/perf/realm.perf.spec.ts:63-89 | Those indices are strictly increasing and include every qualifying event |
| `PerfGraphs.JsonFiles` | scripts/generate-perf-graphs.ts:26 | An entry is kept exactly when its name ends in `.json`; the selection is no longer than the listing |
| `PerfGraphs.JsonFilesAppend` | scripts/generate-perf-graphs.ts:26 | The selection keeps directory order |
| `PerfGraphs.LoadRows` | scripts/generate-perf-graphs.ts:35-46 | It succeeds exactly when every selected file can be read and holds valid JSON; it then gives one projected row per file, in order; otherwise the error names the first file that fails |
| `PerfGraphs.FirstInvalid` | scripts/generate-perf-graphs.ts:35-37 | File `k` cannot be loaded and every earlier selected file can: the file at which `map` throws |
| `PerfGraphs.Project` | scripts/generate-perf-graphs.ts:39-45 | The row kept for a snapshot: its `url`, `avgFps`, `minFps`, `loadEvent` and `domContentLoaded` |
| `PerfGraphs.StripScheme` | scripts/generate-perf-graphs.ts:49 | The result is a suffix, and what is removed is nothing, `http://` or `https://`; something is removed exactly when the URL starts with a scheme |
| `PerfGraphs.SchemeRemoved` | scripts/generate-perf-graphs.ts:49 | Both `https://` and `http://` are removed (the `s` is optional) |
| `PerfGraphs.SchemeRemovedOnce` | scripts/generate-perf-graphs.ts:49 | The match is not global: after one scheme is removed, a second one stays |
| `PerfGraphs.Label` | scripts/generate-perf-graphs.ts:48-50 | A label never contains `/`, is a suffix of its URL with and without the scheme, and is preceded by `/` whenever it is shorter than the scheme-stripped URL |
| `PerfGraphs.LabelWithoutSlash` | scripts/generate-perf-graphs.ts:49 | With no `/` after the scheme, the label is the scheme-stripped URL |
| `PerfGraphs.LabelAfterTrailingSlash` | scripts/generate-perf-graphs.ts:49 | A URL ending in `/` has the empty label |
| `PerfGraphs.DefaultUrlLabel` | scripts/generate-perf-graphs.ts:49 | The built-in URL `https://walmartrealm.com/` has the empty label |
| `PerfGraphs.Labels` | scripts/generate-perf-graphs.ts:48-50 | One label per row, in row order, each the `Label` of the row's URL |
| `PerfGraphs.Value` | scripts/generate-perf-graphs.ts:85-88 | The field of a row that a chart plots: `avgFps`, `minFps`, `loadEvent` or `domContentLoaded` |
| `PerfGraphs.Series` | scripts/generate-perf-graphs.ts:85-88 | One value per row, in row order: the `data.map(d => d.<field>)` argument of each chart |
| `PerfGraphs.Metric.Title` | scripts/generate-perf-graphs.ts:85-88 | The chart titles `Average FPS`, `Minimum FPS`, `Load Event (ms)` and `DOM Content Loaded (ms)`; the constant `METRICS` lists the four metrics in the order they are rendered |
| `PerfGraphs.Metric.FileName` | scripts/generate-perf-graphs.ts:85-88 | The output names `avg-fps.png`, `min-fps.png`, `load-event.png` and `dom-content-loaded.png` |
| `PerfGraphs.ChartsAligned` | scripts/generate-perf-graphs.ts:48-88 | The success condition of `BuildCharts`: four charts in rendering order with their titles and file names, each with one label and one value per selected file, index by index |
| `PerfGraphs.BuildCharts` | scripts/generate-perf-graphs.ts:21-88 | A missing directory is an error; an empty selection is an error, and exactly then the error is `NoJsonFiles`; on success there are four charts in rendering order, each with the right title and file name, and one label and one value per selected file, index-aligned; an unparsable selected file names the first such file |
| `Strings.LastPiece` | scripts/generate-perf-graphs.ts:49 | `split('/').slice(-1)[0]`: a separator-free suffix, preceded by the separator whenever it is not the whole string |
| `Strings.LastPieceIsSuffix` | scripts/generate-perf-graphs.ts:49 | The last piece of a split is the text after the last separator, and it is strictly shorter when there are several pieces |
| `Strings.LastPieceAfterTrailingSeparator` | scripts/generate-perf-graphs.ts:49 | A string ending in the separator has an empty last piece |
| `Strings.LastIndexOf` | scripts/generate-perf-graphs.ts:49 | A proof helper, not a call in the script: the last index of a character, or -1, where no later index holds it. `LastPieceIsSuffix` cuts the string there, which is how the last piece of `split('/')` is found |

## Left out

- `waitForRealmReady` (tests/perf/realm.perf.spec.ts:16-49, called at 104): it is Playwright locators, visibility polling, frame resolution and `requestAnimationFrame` waits inside the browser.
- FPS sampling (tests/perf/realm.perf.spec.ts:106-136): it is floating-point arithmetic over `requestAnimationFrame` timestamps in the page. The snapshot's `avgFps`, `minFps` and `fpsSampleDurationMs` are taken as given integers. The model does not capture that with no samples `minFps` is `Math.min()` of nothing, that is `Infinity`, which JSON writes as `null`.
- Navigation timing (`performance.getEntriesByType`), `page.goto`, the test timeout, `Date.now()` / `toISOString()`, directory creation and the JSON writes (tests/perf/realm.perf.spec.ts:52-58, 91-101, 138-154): these are browser, clock and file-system calls. The running of one test per URL is only reflected by `RecordNavigation` starting from fresh lists.
- The timing values: Playwright reports `requestStart` and `responseEnd` as floating-point milliseconds. The model uses integers and states only the subtraction, which may be negative.
- The `response` event's `request().timing()` is read when the handler runs, as a given pair of numbers. The model does not represent Playwright filling it in later.
- Chart rendering with `chartjs-node-canvas`, the PNG writes, `console` output and `process.exit` (scripts/generate-perf-graphs.ts:1-17, 33, 38, 52-94): these are a foreign library and I/O. The exits become `GraphError` results, and the four `renderChart` calls become the `Chart` values they are given.
- Read failures: `readFileSync` on scripts/generate-perf-graphs.ts:37 can throw, for example on a directory named like a `.json` file or on a missing permission. That stops the script at the same file as a parse failure. The model does not tell the two apart: both are a `DirEntry` without content and give `InvalidJson` naming that file.
- `PerfGraphs.LoadRows`: a file that is valid JSON but is not a snapshot is not modelled; each file is either a snapshot or unparsable. The code would read `undefined` fields from such a file, and the label step would throw on an undefined URL.
- playwright.config.ts: it is framework configuration with no logic.
- The optional `lcp` field of tests/perf/types.ts:14: the harness never sets it.
