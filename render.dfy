/**
  templateChartAndRender: download, extract, locate the chart directory, read
  its values.yaml, load the chart and render it, in that order. The first
  failing stage ends the request with 500 and a message naming the stage.

  The Helm engine is two parameters: `loadChart`, which sees only the files
  below the chart directory (os.DirFS(chartRootDir)), and `template`. The
  random numbers that os.MkdirTemp draws are parameters as well.

  The two `defer os.RemoveAll` calls are registered only after their stage
  has succeeded. They run when the request ends: the extraction directory
  first, then the download directory.
 */
module Render {
  import opened Wrappers
  import opened Text
  import opened FilePath
  import opened FileSystem
  import opened Download
  import opened Extract

  /** A decoded JSON value, as encoding/json produces it for an interface{}. */
  datatype Json =
    | JNull
    | JBool(b: bool)
    | JNumber(n: real)
    | JString(s: string)
    | JArray(items: seq<Json>)
    | JObject(members: map<string, Json>)

  /** RequestPayload: the chart URL and the values that override the chart's own. */
  datatype Payload = Payload(chartUrl: string, values: map<string, Json>)

  /** ResponsePayload: the rendered manifests and the chart's values.yaml. */
  datatype ResponsePayload = ResponsePayload(templates: string, values: seq<byte>, valuesExist: bool)

  datatype Body = PlainText(text: string) | JsonBody(payload: ResponsePayload)

  datatype Response = Response(status: nat, body: Body)

  const StatusBadRequest: nat := 400
  const StatusMethodNotAllowed: nat := 405
  const StatusInternalServerError: nat := 500

  /** http.Error: the status, and the message followed by a newline as the body. */
  function HttpError(msg: string, status: nat): (r: Response)
    ensures r.status == status && r.body.PlainText?
    ensures |r.body.text| == |msg| + 1 && msg <= r.body.text && r.body.text[|msg|] == '\n'
  {
    Response(status, PlainText(msg + "\n"))
  }

  function ServerError(msg: string): Response
  {
    HttpError(msg, StatusInternalServerError)
  }

  const ReleaseName := "my-release"
  const Namespace := "default"
  const ValuesFile := "values.yaml"
  const ValuesError := "Error reading values.yaml: "

  /** helm.TemplateConfig. */
  datatype TemplateConfig<C> = TemplateConfig(chart: C, releaseName: string, namespace: string, values: map<string, Json>)

  /** Everything outside the server's own code that a request depends on. */
  datatype Env<!C> = Env(
    tmp: Path,
    downloadRand: nat,
    extractRand: nat,
    fetch: string -> FetchResult,
    gunzip: seq<byte> -> Archive,
    loadChart: map<Path, Node> -> Result<C, string>,
    template: TemplateConfig<C> -> Result<string, string>)

  /** What a request leaves behind: the file system, and what was written back. */
  datatype Served = Served(fs: FS, response: Response)

  /** The index of the first directory in a listing, if there is one. */
  function FirstDir(entries: seq<DirEntry>): (r: Option<nat>)
    ensures r.Some? ==> r.value < |entries| && entries[r.value].isDir
    ensures r.Some? ==> forall j :: 0 <= j < r.value ==> !entries[j].isDir
    ensures r.None? <==> forall j :: 0 <= j < |entries| ==> !entries[j].isDir
    decreases |entries|
  {
    if entries == [] then None
    else if entries[0].isDir then Some(0)
    else
      match FirstDir(entries[1..])
      case None => None
      case Some(i) => Some(i + 1)
  }

  /** chartRootDir: the first directory of the listing, joined to the extraction directory. */
  function ChartRootDir(entries: seq<DirEntry>, extractDir: Path): Option<Path>
  {
    match FirstDir(entries)
    case None => None
    case Some(i) => Some(Join(extractDir, entries[i].name))
  }

  /** The `for ... break` loop that picks the chart directory. */
  method FindChartRoot(entries: seq<DirEntry>, extractDir: Path) returns (chartRootDir: Option<Path>)
    ensures chartRootDir == ChartRootDir(entries, extractDir)
  {
    chartRootDir := None;
    var i := 0;
    while i < |entries|
      invariant 0 <= i <= |entries|
      invariant forall j :: 0 <= j < i ==> !entries[j].isDir
    {
      if entries[i].isDir {
        chartRootDir := Some(Join(extractDir, entries[i].name));
        return;
      }
      i := i + 1;
    }
  }

  /**
    In the sorted listing of a directory, the chart root is the directory child
    whose name comes first, and there is none exactly when the directory has no
    subdirectory.
   */
  lemma ChartRootIsFirstSubdirectory(fs: FS, d: Path)
    requires Valid(fs) && IsDir(fs, d)
    ensures ReadDir(fs, d).Ok?
    ensures
      var entries := ReadDir(fs, d).value;
      FirstDir(entries).None? <==> forall name :: d + [name] in fs ==> !IsDir(fs, d + [name])
    ensures
      var entries := ReadDir(fs, d).value;
      FirstDir(entries).Some? ==>
        var name := entries[FirstDir(entries).value].name;
        && ChartRootDir(entries, d) == Some(d + [name])
        && IsDir(fs, d + [name])
        && forall other :: d + [other] in fs && IsDir(fs, d + [other]) && other != name ==> Less(name, other)
  {
    var entries := ReadDir(fs, d).value;
    ListingSpec(fs, d);
    if FirstDir(entries).Some? {
      var i := FirstDir(entries).value;
      var name := entries[i].name;
      ChildIsNormal(fs, d, name);
      JoinNormal(d, name);
      forall other | d + [other] in fs && IsDir(fs, d + [other]) && other != name
        ensures Less(name, other)
      {
        var j :| 0 <= j < |entries| && entries[j].name == other;
        assert j != i;
      }
    } else {
      forall name | d + [name] in fs
        ensures !IsDir(fs, d + [name])
      {
        var j :| 0 <= j < |entries| && entries[j].name == name;
        assert !entries[j].isDir;
      }
    }
  }

  /** A name listed in a directory is an ordinary segment. */
  lemma ChildIsNormal(fs: FS, d: Path, name: string)
    requires Valid(fs) && d + [name] in fs
    ensures Normal(name)
  {
    assert (d + [name])[|d|] == name;
  }

  /** The values lookup: the contents of values.yaml with valuesExist, or the error text. */
  function LookupValues(fs: FS, chartRoot: Path): Result<(seq<byte>, bool), string>
  {
    match ReadFile(fs, Join(chartRoot, ValuesFile))
    case Ok(data) => Ok((data, true))
    case Err(e) =>
      if IsNotExist(e) then Ok(([], false))
      else Err(ValuesError + ErrorText(e))
  }

  /**
    values.yaml absent gives no values and valuesExist false; a file gives its
    contents; the only other outcome in a directory that exists is a
    values.yaml that is itself a directory, which is an error.
   */
  lemma ValuesLookup(fs: FS, chartRoot: Path)
    requires Valid(fs) && IsDir(fs, chartRoot)
    ensures
      var p := chartRoot + [ValuesFile];
      var r := LookupValues(fs, chartRoot);
      && (r.Ok? && !r.value.1 <==> p !in fs)
      && (r.Ok? && !r.value.1 ==> r.value.0 == [])
      && (r.Ok? && r.value.1 <==> IsFile(fs, p))
      && (r.Ok? && r.value.1 ==> fs[p] == File(r.value.0))
      && (r.Err? <==> IsDir(fs, p))
  {
    var p := chartRoot + [ValuesFile];
    JoinNormal(chartRoot, ValuesFile);
    assert Dir(p) == chartRoot;
    ReadFileSpec(fs, p);
  }

  /** Every stage after the extraction; none of them changes the file system. */
  function Respond<C>(fs: FS, env: Env<C>, payload: Payload, renderJSON: bool, extractDir: Path): (r: Response)
    ensures r.status == StatusOK || r.status == StatusInternalServerError
  {
    match ReadDir(fs, extractDir)
    case Err(e) => ServerError("Error reading extracted directory: " + ErrorText(e))
    case Ok(entries) =>
      match ChartRootDir(entries, extractDir)
      case None => ServerError("Could not find a valid chart directory in the tarball")
      case Some(chartRoot) => RenderChart(fs, env, payload, renderJSON, chartRoot)
  }

  /** The stages once the chart directory is known: values.yaml, loading, templating. */
  function RenderChart<C>(fs: FS, env: Env<C>, payload: Payload, renderJSON: bool, chartRoot: Path): (r: Response)
    ensures r.status == StatusOK || r.status == StatusInternalServerError
  {
    match LookupValues(fs, chartRoot)
    case Err(m) => ServerError(m)
    case Ok((values, valuesExist)) =>
      match env.loadChart(SubTree(fs, chartRoot))
      case Err(m) => ServerError("Error loading chart: " + m)
      case Ok(chart) =>
        match env.template(TemplateConfig(chart, ReleaseName, Namespace, payload.values))
        case Err(m) => ServerError("Error templating chart: " + m)
        case Ok(result) =>
          if renderJSON then Response(StatusOK, JsonBody(ResponsePayload(result, values, valuesExist)))
          else Response(StatusOK, PlainText(result))
  }

  /** The whole of templateChartAndRender, with its deferred clean-up. */
  function Pipeline<C>(fs: FS, env: Env<C>, payload: Payload, renderJSON: bool): Served
  {
    var d := DownloadChart(fs, env.tmp, env.downloadRand, env.fetch, payload.chartUrl);
    if d.result.Err? then Served(d.fs, ServerError("Error downloading chart: " + d.result.error))
    else
      var tempFilePath := d.result.value;
      var x := ExtractSpec(d.fs, env.gunzip, tempFilePath, env.tmp, env.extractRand);
      if x.result.Err? then
        Served(RemoveAll(x.fs, Dir(tempFilePath)), ServerError("Error extracting chart: " + x.result.error))
      else
        var extractDir := x.result.value;
        Served(RemoveAll(RemoveAll(x.fs, extractDir), Dir(tempFilePath)),
               Respond(x.fs, env, payload, renderJSON, extractDir))
  }

  /** The stages after extraction, with the chart-root loop. */
  method RespondExtracted<C>(fs: FS, env: Env<C>, payload: Payload, renderJSON: bool, extractDir: Path)
    returns (response: Response)
    ensures response == Respond(fs, env, payload, renderJSON, extractDir)
  {
    var listing := ReadDir(fs, extractDir);
    if listing.Err? {
      return ServerError("Error reading extracted directory: " + ErrorText(listing.error));
    }
    var chartRootDir := FindChartRoot(listing.value, extractDir);
    if chartRootDir.None? {
      return ServerError("Could not find a valid chart directory in the tarball");
    }
    var values := LookupValues(fs, chartRootDir.value);
    if values.Err? {
      return ServerError(values.error);
    }
    var loaded := env.loadChart(SubTree(fs, chartRootDir.value));
    if loaded.Err? {
      return ServerError("Error loading chart: " + loaded.error);
    }
    var result := env.template(TemplateConfig(loaded.value, ReleaseName, Namespace, payload.values));
    if result.Err? {
      return ServerError("Error templating chart: " + result.error);
    }
    if renderJSON {
      response := Response(StatusOK, JsonBody(ResponsePayload(result.value, values.value.0, values.value.1)));
    } else {
      response := Response(StatusOK, PlainText(result.value));
    }
  }

  /** templateChartAndRender; it computes Pipeline. */
  method TemplateChartAndRender<C>(fs: FS, env: Env<C>, payload: Payload, renderJSON: bool)
    returns (fs': FS, response: Response)
    ensures Served(fs', response) == Pipeline(fs, env, payload, renderJSON)
  {
    var d := DownloadChart(fs, env.tmp, env.downloadRand, env.fetch, payload.chartUrl);
    if d.result.Err? {
      return d.fs, ServerError("Error downloading chart: " + d.result.error);
    }
    var tempFilePath := d.result.value;
    var fs1, extracted := ExtractTarball(d.fs, env.gunzip, tempFilePath, env.tmp, env.extractRand);
    if extracted.Err? {
      return RemoveAll(fs1, Dir(tempFilePath)), ServerError("Error extracting chart: " + extracted.error);
    }
    var extractDir := extracted.value;
    response := RespondExtracted(fs1, env, payload, renderJSON, extractDir);
    fs' := RemoveAll(RemoveAll(fs1, extractDir), Dir(tempFilePath));
  }

  /** Every response is 200 or 500. */
  lemma StatusIsOkOrServerError<C>(fs: FS, env: Env<C>, payload: Payload, renderJSON: bool)
    ensures Pipeline(fs, env, payload, renderJSON).response.status in {StatusOK, StatusInternalServerError}
  {
  }

  /**
    A 200 answers a request whose download and extraction succeeded, and whose
    later stages gave 200 too (what those are, RenderedBody says).
   */
  lemma OkMeansEveryStageSucceeded<C>(fs: FS, env: Env<C>, payload: Payload, renderJSON: bool)
    requires Pipeline(fs, env, payload, renderJSON).response.status == StatusOK
    ensures
      var d := DownloadChart(fs, env.tmp, env.downloadRand, env.fetch, payload.chartUrl);
      && d.result.Ok?
      && var x := ExtractSpec(d.fs, env.gunzip, d.result.value, env.tmp, env.extractRand);
      && x.result.Ok?
      && Pipeline(fs, env, payload, renderJSON).response == Respond(x.fs, env, payload, renderJSON, x.result.value)
  {
  }

  /**
    A 200 from the stages after extraction comes only when each of them succeeded; its body is
    the rendered manifests, as JSON with the values text and valuesExist, or as
    the bare text when JSON was not asked for.
   */
  lemma RenderedBody<C>(fs: FS, env: Env<C>, payload: Payload, renderJSON: bool, extractDir: Path)
    requires Respond(fs, env, payload, renderJSON, extractDir).status == StatusOK
    ensures
      var response := Respond(fs, env, payload, renderJSON, extractDir);
      && ReadDir(fs, extractDir).Ok?
      && ChartRootDir(ReadDir(fs, extractDir).value, extractDir).Some?
      && var chartRoot := ChartRootDir(ReadDir(fs, extractDir).value, extractDir).value;
      && LookupValues(fs, chartRoot).Ok?
      && env.loadChart(SubTree(fs, chartRoot)).Ok?
      && var values := LookupValues(fs, chartRoot).value;
      && var config := TemplateConfig(env.loadChart(SubTree(fs, chartRoot)).value, ReleaseName, Namespace, payload.values);
      && env.template(config).Ok?
      && (renderJSON ==> response.body == JsonBody(ResponsePayload(env.template(config).value, values.0, values.1)))
      && (!renderJSON ==> response.body == PlainText(env.template(config).value))
  {
  }

  /**
    A failed download ends the request before anything else is consulted: the
    result does not depend on the archive decoder or the Helm engine.
   */
  lemma DownloadFailureShortCircuits<C>(fs: FS, env: Env<C>, env': Env<C>, payload: Payload, renderJSON: bool)
    requires env.tmp == env'.tmp && env.downloadRand == env'.downloadRand && env.fetch == env'.fetch
    requires DownloadChart(fs, env.tmp, env.downloadRand, env.fetch, payload.chartUrl).result.Err?
    ensures Pipeline(fs, env, payload, renderJSON) == Pipeline(fs, env', payload, renderJSON)
    ensures Pipeline(fs, env, payload, renderJSON).response ==
      ServerError("Error downloading chart: " + DownloadChart(fs, env.tmp, env.downloadRand, env.fetch, payload.chartUrl).result.error)
  {
  }

  /** Likewise a failed extraction: the Helm engine is never consulted. */
  lemma ExtractFailureShortCircuits<C>(fs: FS, env: Env<C>, env': Env<C>, payload: Payload, renderJSON: bool)
    requires env.tmp == env'.tmp && env.downloadRand == env'.downloadRand && env.fetch == env'.fetch
    requires env.extractRand == env'.extractRand && env.gunzip == env'.gunzip
    requires
      var d := DownloadChart(fs, env.tmp, env.downloadRand, env.fetch, payload.chartUrl);
      d.result.Ok? && ExtractSpec(d.fs, env.gunzip, d.result.value, env.tmp, env.extractRand).result.Err?
    ensures Pipeline(fs, env, payload, renderJSON) == Pipeline(fs, env', payload, renderJSON)
    ensures
      var d := DownloadChart(fs, env.tmp, env.downloadRand, env.fetch, payload.chartUrl);
      var x := ExtractSpec(d.fs, env.gunzip, d.result.value, env.tmp, env.extractRand);
      Pipeline(fs, env, payload, renderJSON).response == ServerError("Error extracting chart: " + x.result.error)
  {
  }

  /** No chart directory in the archive: 500, and the Helm engine is never consulted. */
  lemma NoChartDirectory<C>(fs: FS, env: Env<C>, env': Env<C>, payload: Payload, renderJSON: bool, extractDir: Path)
    requires Valid(fs) && IsDir(fs, extractDir)
    requires forall name :: extractDir + [name] in fs ==> !IsDir(fs, extractDir + [name])
    ensures Respond(fs, env, payload, renderJSON, extractDir) == ServerError("Could not find a valid chart directory in the tarball")
    ensures Respond(fs, env, payload, renderJSON, extractDir) == Respond(fs, env', payload, renderJSON, extractDir)
  {
    ChartRootIsFirstSubdirectory(fs, extractDir);
  }

  /** Once the download succeeded, the request removes its directory, whatever happens next. */
  lemma DownloadDirRemoved<C>(fs: FS, env: Env<C>, payload: Payload, renderJSON: bool)
    requires Valid(fs)
    requires DownloadChart(fs, env.tmp, env.downloadRand, env.fetch, payload.chartUrl).result.Ok?
    ensures forall q :: q in Pipeline(fs, env, payload, renderJSON).fs ==> !(DownloadDir(env.tmp, env.downloadRand) <= q)
  {
    DownloadSucceeded(fs, env.tmp, env.downloadRand, env.fetch, payload.chartUrl);
  }

  /**
    Once the extraction succeeded too, the request removes both directories and
    nothing else: what is left is what the stages left, minus everything below
    either directory.
   */
  lemma BothDirsRemoved<C>(fs: FS, env: Env<C>, payload: Payload, renderJSON: bool)
    requires Valid(fs)
    requires
      var d := DownloadChart(fs, env.tmp, env.downloadRand, env.fetch, payload.chartUrl);
      d.result.Ok? && ExtractSpec(d.fs, env.gunzip, d.result.value, env.tmp, env.extractRand).result.Ok?
    ensures
      var d := DownloadChart(fs, env.tmp, env.downloadRand, env.fetch, payload.chartUrl);
      var x := ExtractSpec(d.fs, env.gunzip, d.result.value, env.tmp, env.extractRand);
      var extractDir := ExtractDir(env.tmp, env.extractRand);
      var downloadDir := DownloadDir(env.tmp, env.downloadRand);
      var final := Pipeline(fs, env, payload, renderJSON).fs;
      && x.result.value == extractDir
      && (forall q :: q in final <==> q in x.fs && !(extractDir <= q) && !(downloadDir <= q))
      && (forall q :: q in final ==> final[q] == x.fs[q])
  {
    var d := DownloadChart(fs, env.tmp, env.downloadRand, env.fetch, payload.chartUrl);
    DownloadSucceeded(fs, env.tmp, env.downloadRand, env.fetch, payload.chartUrl);
    ExtractSucceeded(d.fs, env.gunzip, d.result.value, env.tmp, env.extractRand);
  }

  /**
    But a download that fails after creating its directory leaves that
    directory behind, for the clean-up is registered only on success.
   */
  lemma FailedDownloadLeaks<C>(fs: FS, env: Env<C>, payload: Payload, renderJSON: bool)
    requires MkdirTemp(fs, env.tmp, DownloadPrefix, env.downloadRand).Ok?
    requires DownloadChart(fs, env.tmp, env.downloadRand, env.fetch, payload.chartUrl).result.Err?
    ensures IsDir(Pipeline(fs, env, payload, renderJSON).fs, DownloadDir(env.tmp, env.downloadRand))
  {
    DownloadDirOutlivesFailure(fs, env.tmp, env.downloadRand, env.fetch, payload.chartUrl);
  }

  /**
    And an extraction that fails after creating its directory leaves that one
    behind, while the download directory, whose clean-up was registered, is gone.
   */
  lemma FailedExtractionLeaks<C>(fs: FS, env: Env<C>, payload: Payload, renderJSON: bool)
    requires Valid(fs) && IsClean(env.tmp)
    requires
      var d := DownloadChart(fs, env.tmp, env.downloadRand, env.fetch, payload.chartUrl);
      && d.result.Ok?
      && IsFile(d.fs, d.result.value)
      && env.gunzip(d.fs[d.result.value].data).Tarball?
      && MkdirTemp(d.fs, env.tmp, ExtractPrefix, env.extractRand).Ok?
      && ExtractSpec(d.fs, env.gunzip, d.result.value, env.tmp, env.extractRand).result.Err?
    ensures IsDir(Pipeline(fs, env, payload, renderJSON).fs, ExtractDir(env.tmp, env.extractRand))
    ensures forall q :: q in Pipeline(fs, env, payload, renderJSON).fs ==> !(DownloadDir(env.tmp, env.downloadRand) <= q)
  {
    var d := DownloadChart(fs, env.tmp, env.downloadRand, env.fetch, payload.chartUrl);
    DownloadSucceeded(fs, env.tmp, env.downloadRand, env.fetch, payload.chartUrl);
    DownloadKeepsValid(fs, env.tmp, env.downloadRand, env.fetch, payload.chartUrl);
    ExtractDirOutlivesFailure(d.fs, env.gunzip, d.result.value, env.tmp, env.extractRand);
    var x := ExtractSpec(d.fs, env.gunzip, d.result.value, env.tmp, env.extractRand);
    var ed := ExtractDir(env.tmp, env.extractRand);
    var dd := DownloadDir(env.tmp, env.downloadRand);
    assert !(dd <= ed) by {
      DistinctPrefixes(env.extractRand, env.downloadRand);
      assert ed[|env.tmp|] != dd[|env.tmp|];
    }
  }

  /** The two kinds of scratch directory never share a name. */
  lemma DistinctPrefixes(m: nat, n: nat)
    ensures TempName(ExtractPrefix, m) != TempName(DownloadPrefix, n)
  {
    assert TempName(ExtractPrefix, m)[5] == 'e';
    assert TempName(DownloadPrefix, n)[5] == 't';
  }

  /** A request keeps the file system well formed. */
  lemma PipelineKeepsValid<C>(fs: FS, env: Env<C>, payload: Payload, renderJSON: bool)
    requires Valid(fs) && IsClean(env.tmp)
    ensures Valid(Pipeline(fs, env, payload, renderJSON).fs)
  {
    var d := DownloadChart(fs, env.tmp, env.downloadRand, env.fetch, payload.chartUrl);
    DownloadKeepsValid(fs, env.tmp, env.downloadRand, env.fetch, payload.chartUrl);
    if d.result.Ok? {
      ExtractKeepsValid(d.fs, env.gunzip, d.result.value, env.tmp, env.extractRand);
    }
  }

  /** The one response whose text names a path of the file system: values.yaml that could not be read. */
  predicate ValuesReadFailed(r: Response)
  {
    r.status == StatusInternalServerError && r.body.PlainText? && ValuesError <= r.body.text
  }

  /** The values lookup in a chart directory reads the same in the subtree above it, errors aside. */
  lemma LookupValuesShift(fs: FS, root: Path, name: string)
    requires Valid(fs) && IsDir(fs, root) && Normal(name) && IsDir(fs, root + [name])
    ensures LookupValues(fs, root + [name]).Ok? == LookupValues(SubTree(fs, root), [name]).Ok?
    ensures LookupValues(fs, root + [name]).Ok? ==> LookupValues(fs, root + [name]) == LookupValues(SubTree(fs, root), [name])
  {
    var t := SubTree(fs, root);
    var p := root + [name] + [ValuesFile];
    var rel := [name] + [ValuesFile];
    assert p == root + rel;
    SubTreeKinds(fs, root, rel);
    SubTreeAt(fs, root, rel);
    SubTreeKinds(fs, root, [name]);
    if IsFile(fs, p) {
      ValuesPresent(fs, root + [name]);
      ValuesPresent(t, [name]);
    } else if IsDir(fs, p) {
      ValuesDirectory(fs, root + [name]);
      ValuesDirectory(t, [name]);
    } else {
      SubTreeValid(fs, root);
      ValuesAbsent(fs, root + [name]);
      ValuesAbsent(t, [name]);
    }
  }

  lemma ValuesPresent(fs: FS, chartRoot: Path)
    requires IsFile(fs, chartRoot + [ValuesFile])
    ensures LookupValues(fs, chartRoot) == Ok((fs[chartRoot + [ValuesFile]].data, true))
  {
    JoinNormal(chartRoot, ValuesFile);
  }

  lemma ValuesDirectory(fs: FS, chartRoot: Path)
    requires IsDir(fs, chartRoot + [ValuesFile])
    ensures LookupValues(fs, chartRoot).Err?
  {
    JoinNormal(chartRoot, ValuesFile);
  }

  /** A chart directory without values.yaml has no values, and that is no error. */
  lemma ValuesAbsent(fs: FS, chartRoot: Path)
    requires Valid(fs) && IsDir(fs, chartRoot) && chartRoot + [ValuesFile] !in fs
    ensures LookupValues(fs, chartRoot) == Ok(([], false))
  {
    JoinNormal(chartRoot, ValuesFile);
    MissingChildErrno(fs, chartRoot, ValuesFile);
  }

  /**
    The stages after extraction give, with the extraction directory at root,
    the response they give with it at "/" in root's subtree: the same status,
    and the same response unless values.yaml could not be read.
   */
  lemma RespondShift<C>(fs: FS, env: Env<C>, payload: Payload, renderJSON: bool, root: Path)
    requires Valid(fs) && IsDir(fs, root)
    ensures
      var r := Respond(fs, env, payload, renderJSON, root);
      var r0 := Respond(SubTree(fs, root), env, payload, renderJSON, []);
      && r.status == r0.status
      && (r != r0 ==> ValuesReadFailed(r) && ValuesReadFailed(r0))
  {
    var t := SubTree(fs, root);
    ListingShift(fs, root);
    var entries := Listing(fs, root);
    assert ReadDir(fs, root) == Ok(entries) && ReadDir(t, []) == Ok(entries);
    if FirstDir(entries).Some? {
      var name := entries[FirstDir(entries).value].name;
      ListedDir(fs, root, FirstDir(entries).value);
      JoinNormal(root, name);
      JoinNormal([], name);
      assert [] + [name] == [name];
      RenderChartShift(fs, env, payload, renderJSON, root, name);
    }
  }

  /** The directory the chart-root search picks is a directory child with an ordinary name. */
  lemma ListedDir(fs: FS, d: Path, i: nat)
    requires Valid(fs) && i < |Listing(fs, d)| && Listing(fs, d)[i].isDir
    ensures Normal(Listing(fs, d)[i].name) && IsDir(fs, d + [Listing(fs, d)[i].name])
  {
    ListingSpec(fs, d);
    ChildIsNormal(fs, d, Listing(fs, d)[i].name);
  }

  lemma RenderChartShift<C>(fs: FS, env: Env<C>, payload: Payload, renderJSON: bool, root: Path, name: string)
    requires Valid(fs) && IsDir(fs, root) && Normal(name) && IsDir(fs, root + [name])
    ensures
      var r := RenderChart(fs, env, payload, renderJSON, root + [name]);
      var r0 := RenderChart(SubTree(fs, root), env, payload, renderJSON, [name]);
      && r.status == r0.status
      && (r != r0 ==> ValuesReadFailed(r) && ValuesReadFailed(r0))
  {
    var t := SubTree(fs, root);
    LookupValuesShift(fs, root, name);
    if LookupValues(fs, root + [name]).Err? {
      ValuesFailureResponse(fs, root + [name]);
      ValuesFailureResponse(t, [name]);
    } else {
      SubTreeNested(fs, root, [name]);
      SameChartSameResponse(fs, root + [name], t, [name], env, payload, renderJSON);
    }
  }

  /** Loading and templating see nothing but the values lookup and the chart's own files. */
  lemma SameChartSameResponse<C>(fs1: FS, c1: Path, fs2: FS, c2: Path, env: Env<C>, payload: Payload, renderJSON: bool)
    requires LookupValues(fs1, c1) == LookupValues(fs2, c2)
    requires SubTree(fs1, c1) == SubTree(fs2, c2)
    ensures RenderChart(fs1, env, payload, renderJSON, c1) == RenderChart(fs2, env, payload, renderJSON, c2)
  {
  }

  /**
    Each of the last three stages that fails ends the request with a 500 and
    its own fixed message: the values.yaml error as it stands, then "Error
    loading chart: " and "Error templating chart: " before the engine's error.
    When the chart does not load, the template engine is never consulted.
   */
  lemma RenderChartFailures<C>(fs: FS, env: Env<C>, payload: Payload, renderJSON: bool, chartRoot: Path,
                               template': TemplateConfig<C> -> Result<string, string>)
    ensures
      var r := RenderChart(fs, env, payload, renderJSON, chartRoot);
      LookupValues(fs, chartRoot).Err? ==>
        && r == ServerError(LookupValues(fs, chartRoot).error)
        && ValuesReadFailed(r)
    ensures
      var r := RenderChart(fs, env, payload, renderJSON, chartRoot);
      var loaded := env.loadChart(SubTree(fs, chartRoot));
      LookupValues(fs, chartRoot).Ok? && loaded.Err? ==>
        && r == ServerError("Error loading chart: " + loaded.error)
        && r == RenderChart(fs, env.(template := template'), payload, renderJSON, chartRoot)
    ensures
      var r := RenderChart(fs, env, payload, renderJSON, chartRoot);
      var loaded := env.loadChart(SubTree(fs, chartRoot));
      LookupValues(fs, chartRoot).Ok? && loaded.Ok? ==>
        var rendered := env.template(TemplateConfig(loaded.value, ReleaseName, Namespace, payload.values));
        rendered.Err? ==> r == ServerError("Error templating chart: " + rendered.error)
  {
    if LookupValues(fs, chartRoot).Err? {
      ValuesFailureResponse(fs, chartRoot);
    }
  }

  lemma ValuesFailureResponse(fs: FS, chartRoot: Path)
    requires LookupValues(fs, chartRoot).Err?
    ensures ValuesReadFailed(ServerError(LookupValues(fs, chartRoot).error))
  {
    var e := ReadFile(fs, Join(chartRoot, ValuesFile)).error;
    assert LookupValues(fs, chartRoot).error == ValuesError + ErrorText(e);
    PrefixedFailure(ErrorText(e));
  }

  lemma PrefixedFailure(rest: string)
    ensures ValuesReadFailed(ServerError(ValuesError + rest))
  {
    var m := ValuesError + rest;
    var text := m + "\n";
    assert ServerError(m).body.text == text;
    assert text[..|ValuesError|] == ValuesError;
  }

  /** The server answers url with an archive none of whose entry names has a ".." segment. */
  predicate NoParentEntries<C>(env: Env<C>, url: string)
  {
    && env.fetch(url).HttpResponse?
    && env.gunzip(env.fetch(url).body).Tarball?
    && forall e :: e in env.gunzip(env.fetch(url).body).entries ==> ".." !in Split(e.name)
  }

  /**
    A request whose download and extraction succeed, on an archive without ".."
    names, leaves the file system exactly as it found it: all it wrote lies
    below the two scratch directories, and both are removed.
   */
  lemma SuccessLeavesNoTrace<C>(fs: FS, env: Env<C>, payload: Payload, renderJSON: bool)
    requires Valid(fs) && IsClean(env.tmp)
    requires NoParentEntries(env, payload.chartUrl)
    requires
      var d := DownloadChart(fs, env.tmp, env.downloadRand, env.fetch, payload.chartUrl);
      d.result.Ok? && ExtractSpec(d.fs, env.gunzip, d.result.value, env.tmp, env.extractRand).result.Ok?
    ensures Pipeline(fs, env, payload, renderJSON).fs == fs
  {
    var url := payload.chartUrl;
    var d := DownloadChart(fs, env.tmp, env.downloadRand, env.fetch, url);
    var p := d.result.value;
    var dd := DownloadDir(env.tmp, env.downloadRand);
    var root := ExtractDir(env.tmp, env.extractRand);
    DownloadSucceeded(fs, env.tmp, env.downloadRand, env.fetch, url);
    DownloadKeepsValid(fs, env.tmp, env.downloadRand, env.fetch, url);
    ExtractSucceeded(d.fs, env.gunzip, p, env.tmp, env.extractRand);
    assert d.fs[p].data == env.fetch(url).body;
    ExtractionStaysInRoot(d.fs, env.gunzip, p, env.tmp, env.extractRand);
    BothDirsRemoved(fs, env, payload, renderJSON);
    NothingBelowMissing(fs, dd);
    assert root !in fs;
    NothingBelowMissing(fs, root);
    var x := ExtractSpec(d.fs, env.gunzip, p, env.tmp, env.extractRand);
    ScratchRemoved(fs, d.fs, x.fs, Pipeline(fs, env, payload, renderJSON).fs, dd, p, env.fetch(url).body, root);
  }

  /** Adding below dd and then below root, and removing both, gives back what there was. */
  lemma ScratchRemoved(fs: FS, dfs: FS, xfs: FS, final: FS, dd: Path, p: Path, body: seq<byte>, root: Path)
    requires forall q :: q in fs ==> !(dd <= q) && !(root <= q)
    requires dd <= p && dfs == fs[dd := Directory][p := File(body)]
    requires forall q :: q in dfs ==> q in xfs
    requires forall q :: q in xfs && (q !in dfs || xfs[q] != dfs[q]) ==> root <= q
    requires forall q :: q in final <==> q in xfs && !(root <= q) && !(dd <= q)
    requires forall q :: q in final ==> final[q] == xfs[q]
    ensures final == fs
  {
    forall q
      ensures q in final <==> q in fs
      ensures q in final ==> final[q] == fs[q]
    {
      if q in fs {
        assert q != dd && q != p;
      }
      if q in final {
        assert q != dd && q != p;
      }
    }
  }

  /** The download and the extraction of url both succeed. */
  predicate Unpacked<C>(fs: FS, env: Env<C>, url: string)
  {
    var d := DownloadChart(fs, env.tmp, env.downloadRand, env.fetch, url);
    d.result.Ok? && ExtractSpec(d.fs, env.gunzip, d.result.value, env.tmp, env.extractRand).result.Ok?
  }

  /**
    After a successful extraction of an archive without ".." names, the tree
    below the extraction directory is the one the loop builds from nothing,
    whatever the two random names were.
   */
  lemma UnpackedTree<C>(fs: FS, env: Env<C>, payload: Payload, renderJSON: bool)
    requires Valid(fs) && IsClean(env.tmp)
    requires NoParentEntries(env, payload.chartUrl) && Unpacked(fs, env, payload.chartUrl)
    ensures
      var url := payload.chartUrl;
      var d := DownloadChart(fs, env.tmp, env.downloadRand, env.fetch, url);
      var x := ExtractSpec(d.fs, env.gunzip, d.result.value, env.tmp, env.extractRand);
      var root := ExtractDir(env.tmp, env.extractRand);
      && x.result == Ok(root)
      && Valid(x.fs) && IsDir(x.fs, root)
      && SubTree(x.fs, root) == Fold(map[], [], env.gunzip(env.fetch(url).body).entries).fs
      && Pipeline(fs, env, payload, renderJSON).response == Respond(x.fs, env, payload, renderJSON, root)
  {
    var url := payload.chartUrl;
    var d := DownloadChart(fs, env.tmp, env.downloadRand, env.fetch, url);
    var p := d.result.value;
    DownloadSucceeded(fs, env.tmp, env.downloadRand, env.fetch, url);
    DownloadKeepsValid(fs, env.tmp, env.downloadRand, env.fetch, url);
    ExtractSucceeded(d.fs, env.gunzip, p, env.tmp, env.extractRand);
    assert d.fs[p].data == env.fetch(url).body;
    ExtractRelocated(d.fs, env.gunzip, p, env.tmp, env.extractRand);
    ExtractKeepsValid(d.fs, env.gunzip, p, env.tmp, env.extractRand);
    ExtractDirOutlivesFailure(d.fs, env.gunzip, p, env.tmp, env.extractRand);
  }

  /**
    Determinism: two requests that differ only in the random numbers os.MkdirTemp
    draws, for an archive without ".." names that both download and extract,
    leave the file system as it was and answer with the same status; their
    responses are the same unless values.yaml could not be read, whose message
    names the scratch path.
   */
  lemma ScratchNamesDoNotMatter<C>(fs: FS, env1: Env<C>, env2: Env<C>, payload: Payload, renderJSON: bool)
    requires Valid(fs) && IsClean(env1.tmp)
    requires env2.tmp == env1.tmp && env2.fetch == env1.fetch && env2.gunzip == env1.gunzip
    requires env2.loadChart == env1.loadChart && env2.template == env1.template
    requires NoParentEntries(env1, payload.chartUrl)
    requires Unpacked(fs, env1, payload.chartUrl) && Unpacked(fs, env2, payload.chartUrl)
    ensures Pipeline(fs, env1, payload, renderJSON).fs == fs
    ensures Pipeline(fs, env2, payload, renderJSON).fs == fs
    ensures
      var r1 := Pipeline(fs, env1, payload, renderJSON).response;
      var r2 := Pipeline(fs, env2, payload, renderJSON).response;
      && r1.status == r2.status
      && (r1 != r2 ==> ValuesReadFailed(r1) && ValuesReadFailed(r2))
  {
    var url := payload.chartUrl;
    assert NoParentEntries(env2, url);
    SuccessLeavesNoTrace(fs, env1, payload, renderJSON);
    SuccessLeavesNoTrace(fs, env2, payload, renderJSON);
    UnpackedTree(fs, env1, payload, renderJSON);
    UnpackedTree(fs, env2, payload, renderJSON);
    var d1 := DownloadChart(fs, env1.tmp, env1.downloadRand, env1.fetch, url);
    var x1 := ExtractSpec(d1.fs, env1.gunzip, d1.result.value, env1.tmp, env1.extractRand);
    var d2 := DownloadChart(fs, env2.tmp, env2.downloadRand, env2.fetch, url);
    var x2 := ExtractSpec(d2.fs, env2.gunzip, d2.result.value, env2.tmp, env2.extractRand);
    var root1 := ExtractDir(env1.tmp, env1.extractRand);
    var root2 := ExtractDir(env2.tmp, env2.extractRand);
    RespondShift(x1.fs, env1, payload, renderJSON, root1);
    RespondShift(x2.fs, env2, payload, renderJSON, root2);
    var t := SubTree(x1.fs, root1);
    assert t == SubTree(x2.fs, root2);
    SameEngineSameResponse(t, env1, env2, payload, renderJSON);
  }

  /** The stages after extraction never look at the random numbers. */
  lemma SameEngineSameResponse<C>(fs: FS, env1: Env<C>, env2: Env<C>, payload: Payload, renderJSON: bool)
    requires env2.loadChart == env1.loadChart && env2.template == env1.template
    ensures Respond(fs, env1, payload, renderJSON, []) == Respond(fs, env2, payload, renderJSON, [])
  {
  }
}
