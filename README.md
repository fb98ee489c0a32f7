# helm-it: the request pipeline, modelled in Dafny

helm-it is a small HTTP service. Given the URL of a packaged Helm chart (a
`.tgz` archive), it:
1. downloads the archive into a scratch directory;
2. unpacks it into a second scratch directory;
3. takes the first sub-directory as the chart;
4. reads that chart's `values.yaml`;
5. hands the chart to the Helm engine;
6. answers with the rendered manifests, either as JSON (`templates`, `values`, `valuesExist`) or as raw text.

Two endpoints lead there:
- `/template` takes a POST with a JSON body, or a GET with `chartUrl` and `values` query parameters; either method reads `raw` from the query;
- `/` with a `c` query parameter renders raw output at once.

This project models everything `main.go` decides along that way and proves what it guarantees:
- `downloadChart`;
- `extractTarball`;
- `templateChartAndRender`;
- `templateHandler`;
- `rootHandler`.

The operating system's file tree is a value: a map from clean absolute paths to
`Directory` or `File(bytes)`. Each operation takes the tree and returns the new
tree with its result (`FileSystem`). The path functions of Go's `path/filepath`
are computed on segment lists (`FilePath`). These are the Go operations modelled:
- `os.MkdirAll`, `os.Create`, `os.ReadFile`, `os.ReadDir`, `os.RemoveAll` and `os.MkdirTemp`;
- `filepath.Join`, `filepath.Dir` and `filepath.Base`.

The world outside the server's code is a set of parameters:
- what `http.Get` returns;
- what gzip and tar decoding make of the downloaded bytes;
- the random numbers `os.MkdirTemp` draws;
- the location of the temporary directory;
- `helm.LoadChart` and `helm.Template`;
- JSON decoding of a POST body and of the `values` query parameter.

Modules, leaf first:
- `Wrappers`: `Option` and `Result`.
- `Text`: `%d` printing and parsing, and the byte-wise name order `os.ReadDir` sorts by.
- `FilePath`: Join/Clean/Dir/Base on segment lists, and what Join does and does not keep inside a directory.
- `FileSystem`: the file tree, the `os` calls, and the subtree below a directory as `os.DirFS` shows it.
- `Download`: `downloadChart`.
- `Extract`: `extractTarball`. It is a method with a `while` loop over the decoded tar entries, and it is proved equal to a fold over them.
- `Render`: `templateChartAndRender`. It is a method with the chart-root loop, proved equal to the pure `Pipeline`, and it covers the deferred clean-up. It also proves that, when the download and the extraction succeed and no entry name holds "..", the random names of the scratch directories do not change the status, and change the response only through the text of a values.yaml read error (`Render.ScratchNamesDoNotMatter`).
- `Handlers`: `templateHandler` and `rootHandler`, as pure functions that return the decision they take.

In four places the code does less, or something else, than one might expect of such a service. The model follows the code:
- **Clean-up after a failed stage.** One would expect both scratch directories to be removed on every exit path. The code registers each removal only after its stage has succeeded. A download or extraction that fails after its `os.MkdirTemp` therefore leaves its directory behind (`Render.FailedDownloadLeaks`, `Render.FailedExtractionLeaks`).
- **The root shortcut.** `/?c=<url>` looks equivalent to `/template?chartUrl=<url>&raw=true`. The code skips the `.tgz` check and the method check on that path (`Handlers.RootSkipsSuffixCheck`).
- **Path traversal.** Nothing checks that every entry lands inside the extraction directory: an entry named `../evil` writes beside that directory (`Extract.TraversalEscapesRoot`). What does hold is proved: with no `..` segment in any entry name, nothing outside the extraction directory changes (`Extract.ExtractionStaysInRoot`).
- **Listing order.** The chart root depends on the listing order. `os.ReadDir` sorts by file name, so the chart root is the sub-directory whose name comes first in byte order (`Render.ChartRootIsFirstSubdirectory`).

## Model

| member | source | states |
|---|---|---|
| Text.NatToString | main.go:59 | the status code printed by `%d`: a non-empty string of decimal digits with no leading zero |
| Text.ParsePrinted | main.go:59 | reading the printed status code back as a decimal number gives the status code |
| Text.PrintedInjective | main.go:59 | distinct status codes give distinct messages |
| Text.HasSuffix | main.go:171 | strings.HasSuffix: the last characters of s are the suffix; BaseOfArchiveUrl and AfterLastSlashKeepsSuffix carry it to the file name, and the Handlers lemmas show what it lets through |
| Text.Less | main.go:205 | the order os.ReadDir sorts names by: byte-wise, a proper prefix first; LessIrreflexive, LessTransitive, LessAsymmetric and LessTotal make it a strict total order |
| Text.LessIrreflexive | main.go:205 | no name sorts before itself |
| Text.LessTransitive | main.go:205 | the name order is transitive |
| Text.LessAsymmetric | main.go:205 | two names never sort before each other |
| Text.LessTotal | main.go:205 | of two different names one sorts first |
| Text.LeastExists | main.go:205 | a non-empty set of names has a first one |
| Text.LeastUnique | main.go:205 | and only one |
| Text.SortedNames | main.go:205 | the names of a directory listed each once, in strictly increasing byte-wise order, and exactly the names present |
| FilePath.SplitRoundTrip | main.go:105 | splitting an entry name at its slashes and joining the pieces again gives the name back |
| FilePath.Resolve | main.go:105 | the lexical walk of filepath.Clean inside Join: ".." goes up, clamped at "/", "" and "." are dropped; ResolveIsClean, ResolveStaysUnder and ResolveShift state it |
| FilePath.ResolveIsClean | main.go:105 | the walk from a clean path over slash-free segments gives a clean path |
| FilePath.ResolveStaysUnder | main.go:105 | without a ".." segment the walk never leaves the directory it starts below |
| FilePath.JoinIsClean | main.go:105 | filepath.Join of a clean directory and any name is a clean path |
| FilePath.JoinNormal | main.go:225 | joining one ordinary name appends it as the last segment |
| FilePath.JoinStaysUnder | main.go:105 | a name none of whose segments is ".." joins to a path at or below the directory, absolute names included |
| FilePath.JoinEscapes | main.go:105 | the name "../evil" joins to a sibling of the directory, outside it |
| FilePath.AfterLastSlashKeepsSuffix | main.go:43 | the text after the last slash keeps a suffix that holds no slash |
| FilePath.PrefixOfParent | main.go:114 | a prefix of a non-empty path is the path or a prefix of filepath.Dir of it |
| FilePath.BaseOfArchiveUrl | main.go:43 | for a URL ending in ".tgz", filepath.Base is an ordinary file name that still ends in ".tgz" |
| FilePath.Split | main.go:105 | strings.Split at '/': at least one piece, and no piece holds a slash |
| FilePath.Dir | main.go:114 | filepath.Dir of a clean path: the path without its last segment, a prefix of it, and "/" for "/" |
| FilePath.Join | main.go:43 | filepath.Join(dir, name) for a clean absolute dir, computed segment by segment; what it guarantees is stated by JoinIsClean, JoinNormal, JoinStaysUnder, JoinEscapes and JoinShift |
| FilePath.Base | main.go:43 | filepath.Base: the last element after trailing slashes are dropped, "." for "" and "/" for slashes only; BaseOfArchiveUrl states what it gives for an archive URL |
| FilePath.ResolveShift | main.go:105 | with no ".." segment, resolving a name from r + b is resolving it from b with r in front |
| FilePath.JoinShift | main.go:105 | a name without ".." joins to the same relative path below any directory |
| FileSystem.MkdirAll | main.go:109 | os.MkdirAll(p, 0755): nothing when p is a directory, ENOTDIR when it is a file, else the parent first and then p; MkdirAllSucceeds and MkdirAllEffect state its outcome |
| FileSystem.MkdirAllSucceeds | main.go:109 | os.MkdirAll succeeds exactly when no prefix of the path is a file; otherwise the error names such a file with ENOTDIR |
| FileSystem.MkdirAllEffect | main.go:109 | after os.MkdirAll every prefix of the path is a directory, the new nodes are exactly the missing prefixes, and existing nodes are unchanged |
| FileSystem.MkdirAllValid | main.go:114 | os.MkdirAll keeps the file tree well formed |
| FileSystem.Create | main.go:117 | os.Create(p): an error when the parent is not a directory or p is a directory, else p becomes an empty file |
| FileSystem.Write | main.go:121 | the file p holds exactly the bytes copied into it |
| FileSystem.CreateKeepsValid | main.go:117 | os.Create keeps the file tree well formed |
| FileSystem.WriteKeepsValid | main.go:121 | writing a file's contents keeps the file tree well formed |
| FileSystem.ReadFile | main.go:228 | os.ReadFile(p): the contents of a file, EISDIR for a directory, and ENOENT or ENOTDIR for a missing path; ReadFileSpec states it |
| FileSystem.ReadFileSpec | main.go:228-230 | os.ReadFile succeeds exactly on a file, returning its contents; it fails with ENOENT exactly when the path is absent |
| FileSystem.ReadDir | main.go:205 | os.ReadDir(d): the sorted listing of a directory, and an error otherwise; ListingSpec states the listing |
| FileSystem.ListingSpec | main.go:205 | os.ReadDir lists each child once, sorted by name, with a correct directory flag, and misses none |
| FileSystem.RemoveAll | main.go:194 | os.RemoveAll removes the path and everything below it, keeps every other node unchanged, and keeps the tree well formed |
| FileSystem.MkdirTemp | main.go:38 | os.MkdirTemp creates exactly one new directory, prefix plus random digits, directly inside the parent; it succeeds exactly when the parent is a directory and the name is free; otherwise it fails as Go does: "mkdir <dir>/<name>: not a directory" when a file is on the way, "stat <dir>: no such file or directory" when the parent is missing, and "mkdirtemp <dir>/<prefix>*: file already exists" when the name is taken |
| FileSystem.MkdirTempKeepsValid | main.go:90 | os.MkdirTemp keeps the file tree well formed |
| FileSystem.SubTree | main.go:241 | os.DirFS(root): the nodes strictly below root, keyed by their path relative to root |
| FileSystem.SubTreeAt | main.go:241 | the subtree holds rel exactly when root + rel is a node, with the same node, and never holds root itself |
| FileSystem.SubTreeKinds | main.go:241 | below a directory, files and directories read the same in the subtree |
| FileSystem.SubTreeUpdate | main.go:241 | changing the node at root + rel changes the subtree at rel and nowhere else |
| FileSystem.SubTreeNested | main.go:241 | the subtree at rel of root's subtree is the subtree at root + rel |
| FileSystem.SubTreeValid | main.go:241 | the subtree below a directory of a well-formed tree is well formed |
| FileSystem.NothingBelowMissing | main.go:38 | in a well-formed tree nothing lies below a path that is not there, so a fresh scratch directory starts empty |
| FileSystem.MkdirAllShift | main.go:109 | os.MkdirAll of root + rel succeeds or fails as MkdirAll of rel does in root's subtree, and leaves the same subtree |
| FileSystem.CreateShift | main.go:117 | likewise os.Create of root + rel |
| FileSystem.ListingShift | main.go:205 | os.ReadDir of a directory lists what the same call lists at the top of its subtree |
| FileSystem.ErrorText | main.go:40 | the text of an *os.PathError, which the wrapping %w messages carry: the operation, the path and the errno's text, as in "open /tmp/x: is a directory"; MkdirTemp and DirectoryBaseFailsCreate state the texts the calls give |
| FileSystem.IsNotExist | main.go:230 | os.IsNotExist: ENOENT; ReadFileSpec shows it holds exactly for a missing path, MissingChildErrno for a missing child of a directory |
| FileSystem.MissingChildErrno | main.go:230 | a missing child of a directory is reported as ENOENT, which os.IsNotExist accepts |
| Download.DownloadChart | main.go:36-69 | downloadChart: a fresh directory, the file named by the URL's base name inside it, the fetch, the status check and the copy, each failure with its message; DownloadSucceeded, StatusReported and DirectoryBaseFailsCreate state its outcomes |
| Download.DownloadSucceeded | main.go:36-69 | a successful download created a fresh directory, got status 200 with a complete body, and left exactly that directory and the file named by the URL's base name holding the body |
| Download.StatusReported | main.go:43-60 | when the URL's base name is an ordinary file name, which it is for every URL /template accepts (BaseOfArchiveUrl), any status other than 200 fails the download with the fixed prefix followed by the digits of that status |
| Download.DirectoryBaseFailsCreate | main.go:43-47 | a URL whose base name is "/", "." or ".." (one that only / lets through) fails at os.Create with EISDIR before anything is fetched, leaving only the new directory |
| Download.DownloadDirOutlivesFailure | main.go:38-66 | once the download directory is made, it survives every later failure inside downloadChart |
| Download.DownloadKeepsValid | main.go:36-69 | downloadChart keeps the file tree well formed |
| Extract.ExtractDir | main.go:90 | the extraction directory: "helm-extract-" and the random digits, directly in the temporary directory |
| Extract.Target | main.go:105 | filepath.Join(dest, header.Name); JoinStaysUnder, ExtractionStaysInRoot and TraversalEscapesRoot state where it lands |
| Extract.Step | main.go:105-126 | one iteration: a directory entry runs os.MkdirAll on its target, a regular entry creates its parent directories and then the file with the entry's bytes, any other type is skipped; each failure stops with its message; DirEntryStep, RegEntryStep and OtherEntryStep state it |
| Extract.Fold | main.go:96-127 | the loop over the entries, stopping at the first failing one; FoldAppend and FirstErrorAborts state how it composes |
| Extract.ExtractSpec | main.go:73-130 | extractTarball: open, gzip, the fresh directory, the loop and the end of the stream, each failure with its message; ExtractSucceeded and the lemmas below state its outcomes |
| Extract.ExtractTarball | main.go:73-130 | the loop over the tar entries computes the same file tree and result as the specification fold, with every error path |
| Extract.FoldAppend | main.go:96-127 | running the loop over two runs of entries in turn is running it over both joined |
| Extract.FirstErrorAborts | main.go:101-124 | after the first failing entry, no later entry is looked at |
| Extract.FoldOneMore | main.go:96-127 | one more loop iteration extends the fold by that entry's step, and a failing step is the fold's outcome |
| Extract.DirEntryStep | main.go:108-111 | a directory entry succeeds exactly when no prefix of its target is a file; then the target and all its ancestors are directories, and the nodes are exactly the old ones and those prefixes; a failure changes nothing |
| Extract.RegEntryStep | main.go:112-125 | a regular entry succeeds exactly when no ancestor is a file, the target is not a directory and the body was read whole; then the target holds exactly the entry's bytes, its ancestors are directories, and the nodes are exactly the old ones, the target and its prefixes |
| Extract.RegStepNodes | main.go:112-125 | a successful regular entry adds the target and the missing prefixes of it, and no other node |
| Extract.OtherEntryStep | main.go:107-126 | an entry of any other type changes nothing |
| Extract.StepKeepsOthers | main.go:105-126 | a successful step leaves every existing node unchanged except a regular entry's own target |
| Extract.FoldKeepsUntargeted | main.go:96-127 | the loop keeps every node that no regular entry targets |
| Extract.LastEntryWins | main.go:117-125 | after the loop, a file holds the bytes of the last regular entry with that target, so a later entry overwrites an earlier one |
| Extract.StepKeepsValid | main.go:105-126 | each entry keeps the file tree well formed |
| Extract.FoldKeepsValid | main.go:96-127 | the whole loop keeps the file tree well formed |
| Extract.AncestorsPresent | main.go:90 | every ancestor of an existing directory exists |
| Extract.MkdirAllBelow | main.go:109 | os.MkdirAll on a path below an existing directory adds nodes only strictly below it |
| Extract.StepBelow | main.go:105-126 | an entry with no ".." segment in its name removes nothing and changes nothing outside the extraction directory |
| Extract.FoldBelow | main.go:96-127 | a run of such entries removes nothing and changes nothing outside the extraction directory |
| Extract.ExtractionStaysInRoot | main.go:73-130 | with no ".." in any entry name, extraction removes nothing and only adds or changes nodes at or below the fresh extraction directory |
| Extract.StepShift | main.go:105-126 | an entry without ".." has the same outcome, and leaves the same subtree, whatever directory it is extracted into |
| Extract.RegStepShift | main.go:112-125 | the same for a regular entry, including one whose name resolves to the directory itself, which fails in both places |
| Extract.RegStepShiftBelow | main.go:112-125 | the same for a regular entry strictly below the directory |
| Extract.FoldShift | main.go:96-127 | a run of such entries likewise |
| Extract.FreshSubTreeEmpty | main.go:90 | a directory os.MkdirTemp just made has nothing below it |
| Extract.ExtractRelocated | main.go:73-130 | with no ".." in any entry name, extraction succeeds exactly when the loop succeeds from an empty tree and the stream ends at EOF, and then the extraction directory holds exactly the tree the loop builds; its random name plays no part |
| Extract.RegStepWrites | main.go:117-125 | a successful regular entry leaves its bytes at its target and the tree well formed |
| Extract.TraversalEscapesRoot | main.go:105 | an entry named "../evil" writes its bytes into a file outside the extraction directory |
| Extract.ExtractSucceeded | main.go:96-129 | a returned root is the fresh "helm-extract-" directory; the stream ended at EOF and every entry was processed |
| Extract.ExtractAfterMkdir | main.go:90-127 | once the extraction directory exists, the tree left behind is what the loop left |
| Extract.ExtractKeepsValid | main.go:73-130 | extractTarball keeps the file tree well formed, whether it succeeds or fails |
| Extract.ExtractDirOutlivesFailure | main.go:90-124 | extractTarball does no clean-up: a failure after the extraction directory exists leaves it behind |
| Extract.FoldNeverReplacesRoot | main.go:96-127 | no entry, whatever its name, turns the extraction directory into something else |
| Render.ServerError | main.go:191 | http.Error with status 500; HttpError states the answer, RenderChartFailures and the ShortCircuits lemmas the messages |
| Render.HttpError | main.go:191 | http.Error answers with the given status and the message followed by a newline |
| Render.ChartRootDir | main.go:211-217 | chartRootDir: the first directory of the listing joined to the extraction directory, or none; FindChartRoot and ChartRootIsFirstSubdirectory state it |
| Render.FirstDir | main.go:212-217 | the index of the first directory in the listing with none before it, or none exactly when no entry is a directory |
| Render.FindChartRoot | main.go:211-217 | the `for ... break` loop finds the first directory of the listing and joins it to the extraction directory |
| Render.ChartRootIsFirstSubdirectory | main.go:205-222 | the chart root is the directory child whose name sorts first; there is none exactly when no child is a directory |
| Render.ChildIsNormal | main.go:214 | a name listed in a directory is an ordinary path segment |
| Render.LookupValues | main.go:225-237 | the values lookup: the file's contents with valuesExist, no values when os.IsNotExist, else the error text; ValuesLookup states it |
| Render.ValuesLookup | main.go:225-237 | without values.yaml, there are no values and valuesExist is false; with the file, the values are its contents; a values.yaml that is a directory is an error |
| Render.Respond | main.go:204-281 | the stages after extraction; every response is 200 or 500 |
| Render.RenderChart | main.go:224-281 | the stages once the chart directory is known; every response is 200 or 500; RenderChartFailures states the failures and RenderedBody the 200 |
| Render.RenderChartFailures | main.go:228-262 | a values.yaml error answers 500 with that error (prefixed "Error reading values.yaml: "); after a good lookup a failed load answers 500 "Error loading chart: " and the engine's error, whatever the template engine would do; after a good load a failed render answers 500 "Error templating chart: " and the engine's error |
| Render.Pipeline | main.go:187-282 | templateChartAndRender with its deferred removals; StatusIsOkOrServerError, OkMeansEveryStageSucceeded and the lemmas below state its outcomes |
| Render.RespondExtracted | main.go:204-281 | the stages after extraction give the response of the specification; none of them changes the file tree |
| Render.TemplateChartAndRender | main.go:187-282 | templateChartAndRender computes Pipeline: the same response and the same file tree after the deferred removals |
| Render.StatusIsOkOrServerError | main.go:187-282 | every response of the pipeline is 200 or 500 |
| Render.OkMeansEveryStageSucceeded | main.go:189-202 | a 200 from the whole request means the download and the extraction succeeded and the answer is that of the later stages |
| Render.RenderedBody | main.go:204-281 | a 200 from the stages after extraction means listing, chart-root search, values lookup, loading and templating all succeeded; in JSON mode the body carries the rendered text, the values text and valuesExist; in raw mode it is exactly the rendered text |
| Render.DownloadFailureShortCircuits | main.go:189-193 | a failed download answers 500 "Error downloading chart: ..." and consults neither the decoder nor the Helm engine |
| Render.ExtractFailureShortCircuits | main.go:197-201 | a failed extraction answers 500 "Error extracting chart: ..." and never consults the Helm engine |
| Render.NoChartDirectory | main.go:219-222 | an extraction directory without sub-directories answers 500 "Could not find a valid chart directory in the tarball" without consulting the Helm engine |
| Render.DownloadDirRemoved | main.go:194 | after a successful download, nothing below the download directory remains when the request ends |
| Render.BothDirsRemoved | main.go:202 | after a successful extraction too, the request removes exactly what lies below either scratch directory and changes nothing else |
| Render.FailedDownloadLeaks | main.go:189-194 | a download that fails after creating its directory leaves it behind |
| Render.FailedExtractionLeaks | main.go:197-202 | an extraction that fails after creating its directory leaves it behind, although the download directory is removed |
| Render.DistinctPrefixes | main.go:90 | an extraction directory name never equals a download directory name |
| Render.PipelineKeepsValid | main.go:187-282 | a request keeps the file tree well formed |
| Render.ValuesPresent | main.go:228-236 | a values.yaml file gives its contents and valuesExist true |
| Render.ValuesDirectory | main.go:228-233 | a values.yaml that is a directory is an error |
| Render.ValuesAbsent | main.go:228-234 | a chart directory without values.yaml gives no values and valuesExist false, and no error |
| Render.LookupValuesShift | main.go:225-237 | the values lookup gives the same outcome at the chart directory and at its place in the extraction subtree, the error text aside |
| Render.ListedDir | main.go:212-214 | the directory the chart-root search picks is a directory child with an ordinary name |
| Render.RenderChartShift | main.go:224-281 | the stages once the chart directory is known give the same status, and the same response unless values.yaml could not be read, at either place |
| Render.SameChartSameResponse | main.go:239-281 | loading and templating depend only on the values lookup and the chart's own files |
| Render.RespondShift | main.go:204-281 | the stages after extraction give the same status, and the same response unless values.yaml could not be read, whether run at the extraction directory or at the top of its subtree |
| Render.ValuesFailureResponse | main.go:231 | the 500 that http.Error makes of a failed values lookup's message has a text that starts "Error reading values.yaml: " |
| Render.PrefixedFailure | main.go:231 | http.Error keeps the message as the start of the body |
| Render.ScratchRemoved | main.go:194-202 | adding nodes below the two scratch directories and then removing both gives back the tree there was |
| Render.SuccessLeavesNoTrace | main.go:187-282 | a request whose download and extraction succeed, for an archive without ".." names, leaves the file tree exactly as it found it |
| Render.UnpackedTree | main.go:189-202 | after such a download and extraction, the extraction directory holds the tree the loop builds from nothing, whatever the random numbers were |
| Render.ScratchNamesDoNotMatter | main.go:187-282 | two such requests that differ only in the random numbers of os.MkdirTemp leave the file tree as it was and answer with the same status; their responses are equal unless values.yaml could not be read, whose message names the random path |
| Render.SameEngineSameResponse | main.go:204-281 | the stages after extraction never look at the random numbers |
| Handlers.TemplateHandler | main.go:133-184 | templateHandler: decode by method, check the ".tgz" suffix, pick the output format; the lemmas below state each answer |
| Handlers.RootHandler | main.go:284-294 | rootHandler: render `c` in raw mode with no values, else the static files; RootShortcut states it |
| Handlers.Handle | main.go:183 | carrying out a handler's decision: its answer, or Pipeline on the payload, or the static files (not modelled) |
| Handlers.QueryGet | main.go:148 | the first value of a query key, or "" when it has none |
| Handlers.TemplateAlwaysAnswers | main.go:133-184 | /template always answers itself or renders; it never falls through to the static files |
| Handlers.MethodNotAllowed | main.go:138-168 | the answer is 405 "Only POST and GET methods are supported" exactly when the method is neither GET nor POST |
| Handlers.GetRejections | main.go:146-174 | a GET answers 400 for a missing chartUrl, then for undecodable values, then for a URL without ".tgz", each with its message |
| Handlers.PostRejections | main.go:139-174 | a POST answers 400 for an undecodable body, then for a URL without ".tgz", each with its message |
| Handlers.EmptyPostUrl | main.go:170-174 | an empty chartUrl in a POST body is turned away by the suffix check |
| Handlers.TemplateRenders | main.go:138-183 | what /template renders has a ".tgz" URL and the payload from the body or query; the output is JSON unless raw is exactly "true" |
| Handlers.TemplateAccepts | main.go:138-183 | a GET or POST that passes every check is rendered |
| Handlers.RejectionDownloadsNothing | main.go:138-174 | a request answered with 400 or 405 leaves the file tree alone and never reaches the network or the Helm engine |
| Handlers.RootShortcut | main.go:284-294 | a non-empty `c` on / runs the pipeline in raw mode with no values, whatever the method; otherwise the static files are served |
| Handlers.RootSkipsSuffixCheck | main.go:285-289 | a URL without ".tgz" is rendered through `c` on /, while /template turns it away |

## Left out

- Network I/O. `http.Get` and reading the response body are the `fetch` parameter: its result is an error, or a status with the bytes read and the error that stopped the read, if any. The server's listening, routing in `main`, timeouts and size limits are not modelled.
- Gzip decompression and tar header parsing are the `gunzip` parameter. It yields a decoding error, or the decoded entries (type flag, name, the body bytes that could be read, and a read error) followed by how the stream ended.
- `helm.LoadChart` and `helm.Template` are the `loadChart` and `template` parameters. `loadChart` is given only the files below the chart directory, as `os.DirFS(chartRootDir)` would give it.
- JSON encoding and decoding are the `decodePayload` and `decodeValues` parameters, and the response's JSON body is recorded as its field values.
  - `omitempty` rendering is not modelled.
  - The `json.Marshal` failure branch (main.go:269-273) is not modelled: marshalling two strings and a bool does not fail.
  - A nil and an empty values map are both `map[]`.
- Content-Type headers and logging are not modelled.
- The static file server is not modelled: `embed.go` and `noembed.go` wrap `http.FileServer` only, and `static/script.js` is browser code. Handling `/` without `c` yields `None`.
- Concurrent requests are not modelled. Each request is a function of the file tree it starts from.
- FileSystem.MkdirTemp: Go retries up to 10000 times with a new random number when the name is taken. The model is handed the number finally used and reports fs.ErrExist ("file already exists") when its name is taken, which Go reports only after the last try. The random numbers are parameters.
- Permissions, a full disk and other I/O failures of the operating system are not modelled. The only errors are ENOENT, ENOTDIR, EISDIR and fs.ErrExist, arising from the shape of the tree.
- The text of an `os` error is "op path: reason", with the reason written as Go writes it on Linux. The text of the path is its segments joined by '/'.
- Response.status is an unbounded natural number. The model does not restrict it to the three-digit codes net/http produces.
- `/template` with a method other than GET or POST is answered at once, as main.go:165-167 does; the model does not look at the body in that case.
- JSON numbers are `Render.Json.JNumber` with a `real`. encoding/json decodes them into float64, so the model does not capture the rounding of numbers that have no exact float64 value, or the failure on numbers beyond its range.
- Strings are sequences of Unicode scalar values, Go's strings are bytes. Entry names, URLs, query values and error texts that are not valid UTF-8 cannot be represented. For valid UTF-8, the order of `Text.Less` on scalar values is the byte order `os.ReadDir` sorts by. The values text is kept as bytes; json.Marshal would replace invalid UTF-8 in it, which is not modelled.
- The whole archive is decoded before the first entry is written; Go's tar reader reads the downloaded file lazily, as the loop goes. Only an entry that writes to the archive itself while it is read tells the two apart. Such an entry is named `../helm-template-<n>/<base>`, and it truncates the tarball under the reader in Go, while the model goes on with the entries decoded up front.
- Error messages name the scratch directories, whose names hold the random numbers, so two otherwise equal requests can fail with different texts. `Render.ScratchNamesDoNotMatter` shows that for successful downloads and extractions the only such text left is that of an unreadable values.yaml.
- Extract.Kind: the tar type flag is recorded only as directory, regular file, or any other flag, which the loop skips. A legacy NUL type flag is assumed to have been mapped to TypeReg by the decoder, as archive/tar does.
