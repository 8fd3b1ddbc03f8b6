/** What the graph script feeds to its charts: the ".json" files of the results
    directory, one row per file projected from its snapshot, a bar label per
    row taken from the last path segment of its URL, and one value series per
    metric aligned with the labels. A missing directory, an empty selection and
    a selected file that is not valid JSON are errors. */
module PerfGraphs {
  import opened Wrappers
  import opened Strings
  import opened PerfTypes

  const JSON_EXTENSION: string := ".json"
  const HTTP_SCHEME: string := "http://"
  const HTTPS_SCHEME: string := "https://"

  /** A file of the results directory: its name and, when it can be read and
      its text is valid JSON, the snapshot it holds. None stands for either
      throw that stops the script at that file: reading fails (a directory
      named like a file, no permission) or parsing fails. */
  datatype DirEntry = DirEntry(name: string, content: Option<Snapshot>)

  /** The fields of a snapshot the charts use. */
  datatype ChartRow = ChartRow(url: string, avgFps: int, minFps: int, loadEvent: int, domContentLoaded: int)

  datatype GraphError = MissingDirectory | NoJsonFiles | InvalidJson(file: string)

  /** The four charts, in the order they are rendered. */
  datatype Metric = AvgFps | MinFps | LoadEvent | DomContentLoaded
  {
    function Title(): string
    {
      match this
      case AvgFps => "Average FPS"
      case MinFps => "Minimum FPS"
      case LoadEvent => "Load Event (ms)"
      case DomContentLoaded => "DOM Content Loaded (ms)"
    }

    function FileName(): string
    {
      match this
      case AvgFps => "avg-fps.png"
      case MinFps => "min-fps.png"
      case LoadEvent => "load-event.png"
      case DomContentLoaded => "dom-content-loaded.png"
    }
  }

  const METRICS: seq<Metric> := [AvgFps, MinFps, LoadEvent, DomContentLoaded]

  /** A bar chart as handed to the renderer. */
  datatype Chart = Chart(title: string, labels: seq<string>, values: seq<int>, fileName: string)

  /** The names ending in ".json", in directory order. */
  function JsonFiles(entries: seq<DirEntry>): (files: seq<DirEntry>)
    ensures |files| <= |entries|
    ensures forall e :: e in files <==> e in entries && EndsWith(e.name, JSON_EXTENSION)
  {
    if entries == [] then []
    else
      (if EndsWith(entries[0].name, JSON_EXTENSION) then [entries[0]] else [])
      + JsonFiles(entries[1..])
  }

  /** The filter keeps directory order: the selection from two listings is
      the selection from the first followed by that from the second. */
  lemma {:induction false} JsonFilesAppend(a: seq<DirEntry>, b: seq<DirEntry>)
    ensures JsonFiles(a + b) == JsonFiles(a) + JsonFiles(b)
    decreases |a|
  {
    if a == [] {
      assert a + b == b;
    } else {
      assert (a + b)[1..] == a[1..] + b;
      JsonFilesAppend(a[1..], b);
    }
  }

  function Project(s: Snapshot): ChartRow
  {
    ChartRow(s.url, s.avgFps, s.minFps, s.loadEvent, s.domContentLoaded)
  }

  /** Reads the selected files in order; the first one that is not valid JSON
      stops the script. */
  function LoadRows(files: seq<DirEntry>): (r: Result<seq<ChartRow>, GraphError>)
    ensures r.Success? <==> forall k :: 0 <= k < |files| ==> files[k].content.Some?
    ensures r.Success? ==>
      && |r.value| == |files|
      && forall k :: 0 <= k < |files| ==> r.value[k] == Project(files[k].content.value)
    ensures r.Failure? ==>
      exists k :: FirstInvalid(files, k) && r.error == InvalidJson(files[k].name)
  {
    if files == [] then Success([])
    else if files[0].content.None? then
      assert FirstInvalid(files, 0);
      Failure(InvalidJson(files[0].name))
    else
      match LoadRows(files[1..])
      case Failure(e) =>
        assert exists k :: FirstInvalid(files, k) && e == InvalidJson(files[k].name) by {
          var k :| FirstInvalid(files[1..], k) && e == InvalidJson(files[1..][k].name);
          assert FirstInvalid(files, k + 1);
        }
        Failure(e)
      case Success(rows) =>
        assert forall k :: 1 <= k < |files| ==> files[k] == files[1..][k - 1];
        Success([Project(files[0].content.value)] + rows)
  }

  /** `files[k]` is the first selected file that is not valid JSON. */
  predicate FirstInvalid(files: seq<DirEntry>, k: int)
  {
    0 <= k < |files| && files[k].content.None? &&
    forall j :: 0 <= j < k ==> files[j].content.Some?
  }

  /** The removal of /^https?:\/\// : one leading "http://" or "https://", only
      at the start and only once. */
  function StripScheme(url: string): (rest: string)
    ensures EndsWith(url, rest)
    ensures url[..|url| - |rest|] in {[], HTTP_SCHEME, HTTPS_SCHEME}
    ensures |rest| < |url| <==> StartsWith(url, HTTP_SCHEME) || StartsWith(url, HTTPS_SCHEME)
  {
    if StartsWith(url, HTTPS_SCHEME) then url[|HTTPS_SCHEME|..]
    else if StartsWith(url, HTTP_SCHEME) then url[|HTTP_SCHEME|..]
    else url
  }

  /** The bar label of a URL: the last '/'-separated segment of the URL
      without its scheme, that is the text after its last '/'. */
  function Label(url: string): (segment: string)
    ensures '/' !in segment
    ensures EndsWith(StripScheme(url), segment) && EndsWith(url, segment)
    ensures var rest := StripScheme(url);
      |segment| < |rest| ==> rest[|rest| - |segment| - 1] == '/'
  {
    var rest := StripScheme(url);
    var segment := LastPiece(rest, '/');
    assert EndsWith(url, segment) by {
      EndsWithWithin(url, rest, segment);
    }
    segment
  }

  /** Without a '/' after the scheme, the label is the URL without its scheme. */
  lemma LabelWithoutSlash(url: string)
    requires '/' !in StripScheme(url)
    ensures Label(url) == StripScheme(url)
  {
    SplitWithoutSeparator(StripScheme(url), '/');
  }

  /** A URL ending in '/' has the empty label. */
  lemma LabelAfterTrailingSlash(url: string)
    requires url != [] && url[|url| - 1] == '/'
    ensures Label(url) == []
  {
    var rest := StripScheme(url);
    if rest != [] {
      assert rest[|rest| - 1] == url[|url| - 1];
      LastPieceAfterTrailingSeparator(rest, '/');
    }
  }

  /** The built-in target URL gets the empty label. */
  lemma DefaultUrlLabel()
    ensures Label("https://walmartrealm.com/") == []
  {
    LabelAfterTrailingSlash("https://walmartrealm.com/");
  }

  /** Either scheme is removed, with the optional "s" matched as part of it. */
  lemma SchemeRemoved(rest: string)
    ensures StripScheme(HTTPS_SCHEME + rest) == rest
    ensures StripScheme(HTTP_SCHEME + rest) == rest
  {
    assert (HTTPS_SCHEME + rest)[..|HTTPS_SCHEME|] == HTTPS_SCHEME;
    assert (HTTP_SCHEME + rest)[..|HTTP_SCHEME|] == HTTP_SCHEME;
    assert (HTTP_SCHEME + rest)[4] == ':';
  }

  /** Only one scheme is removed: a second one stays in the label's source. */
  lemma SchemeRemovedOnce(rest: string)
    ensures StripScheme(HTTPS_SCHEME + HTTP_SCHEME + rest) == HTTP_SCHEME + rest
    ensures StripScheme(HTTP_SCHEME + HTTPS_SCHEME + rest) == HTTPS_SCHEME + rest
  {
    assert HTTPS_SCHEME + HTTP_SCHEME + rest == HTTPS_SCHEME + (HTTP_SCHEME + rest);
    assert HTTP_SCHEME + HTTPS_SCHEME + rest == HTTP_SCHEME + (HTTPS_SCHEME + rest);
    SchemeRemoved(HTTP_SCHEME + rest);
    SchemeRemoved(HTTPS_SCHEME + rest);
  }

  function Value(row: ChartRow, m: Metric): int
  {
    match m
    case AvgFps => row.avgFps
    case MinFps => row.minFps
    case LoadEvent => row.loadEvent
    case DomContentLoaded => row.domContentLoaded
  }

  function Labels(rows: seq<ChartRow>): (labels: seq<string>)
  {
    seq(|rows|, i requires 0 <= i < |rows| => Label(rows[i].url))
  }

  function Series(rows: seq<ChartRow>, m: Metric): (values: seq<int>)
  {
    seq(|rows|, i requires 0 <= i < |rows| => Value(rows[i], m))
  }

  /** The whole script up to rendering: `listing` is the results directory,
      None when it does not exist. */
  function BuildCharts(listing: Option<seq<DirEntry>>): (r: Result<seq<Chart>, GraphError>)
    ensures listing.None? ==> r == Failure(MissingDirectory)
    ensures listing.Some? ==> (JsonFiles(listing.value) == [] <==> r == Failure(NoJsonFiles))
    ensures r.Success? ==> listing.Some? && ChartsAligned(JsonFiles(listing.value), r.value)
    ensures listing.Some? && r.Failure? && JsonFiles(listing.value) != [] ==>
      exists k :: FirstInvalid(JsonFiles(listing.value), k) &&
        r.error == InvalidJson(JsonFiles(listing.value)[k].name)
  {
    match listing
    case None => Failure(MissingDirectory)
    case Some(entries) =>
      var files := JsonFiles(entries);
      if files == [] then Failure(NoJsonFiles)
      else
        match LoadRows(files)
        case Failure(e) => Failure(e)
        case Success(rows) =>
          Success(seq(|METRICS|, c requires 0 <= c < |METRICS| =>
            Chart(METRICS[c].Title(), Labels(rows), Series(rows, METRICS[c]), METRICS[c].FileName())))
  }

  /** One chart per metric in rendering order, each with one label and one
      value per selected file, index by index: the label of the file's URL and
      that file's value of the metric. */
  ghost predicate ChartsAligned(files: seq<DirEntry>, charts: seq<Chart>)
  {
    && |files| > 0
    && |charts| == |METRICS|
    && forall c :: 0 <= c < |charts| ==>
      && charts[c].title == METRICS[c].Title()
      && charts[c].fileName == METRICS[c].FileName()
      && |charts[c].labels| == |files|
      && |charts[c].values| == |files|
      && forall i :: 0 <= i < |files| ==>
        && files[i].content.Some?
        && charts[c].labels[i] == Label(files[i].content.value.url)
        && charts[c].values[i] == Value(Project(files[i].content.value), METRICS[c])
  }
}
