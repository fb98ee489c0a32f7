/**
  downloadChart: fetch the chart archive at a URL into a fresh directory
  "helm-template-<n>" under the temporary directory, as the file named by the
  URL's last element.

  The network is a parameter `fetch`: what http.Get(url) returns. That is an
  error, or a status code with the body bytes that io.Copy could read. When
  reading the body broke off, the error that stopped it comes with those bytes.
 */
module Download {
  import opened Wrappers
  import opened Text
  import opened FilePath
  import opened FileSystem

  datatype FetchResult =
    | NetworkError(msg: string)
    | HttpResponse(status: nat, body: seq<byte>, bodyError: Option<string>)

  const StatusOK: nat := 200
  const DownloadPrefix := "helm-template-"
  const StatusPrefix := "failed to download chart, status code: "

  /** The directory a download with random number rand goes to. */
  function DownloadDir(tmp: Path, rand: nat): Path
  {
    tmp + [TempName(DownloadPrefix, rand)]
  }

  /** downloadChart(url). */
  function DownloadChart(fs: FS, tmp: Path, rand: nat, fetch: string -> FetchResult, url: string): (r: Staged<Path>)
  {
    match MkdirTemp(fs, tmp, DownloadPrefix, rand)
    case Err(e) => Staged(fs, Err("failed to create temp directory: " + ErrorText(e)))
    case Ok((fs1, tempDir)) =>
      var tempFilePath := Join(tempDir, Base(url));
      match Create(fs1, tempFilePath)
      case Err(e) => Staged(fs1, Err("failed to create temp file: " + ErrorText(e)))
      case Ok(fs2) =>
        match fetch(url)
        case NetworkError(m) => Staged(fs2, Err("failed to download chart: " + m))
        case HttpResponse(status, body, bodyError) =>
          if status != StatusOK then
            Staged(fs2, Err(StatusPrefix + NatToString(status)))
          else
            var fs3 := Write(fs2, tempFilePath, body);
            if bodyError.Some? then Staged(fs3, Err("failed to copy content to file: " + bodyError.value))
            else Staged(fs3, Ok(tempFilePath))
  }

  lemma DownloadKeepsValid(fs: FS, tmp: Path, rand: nat, fetch: string -> FetchResult, url: string)
    requires Valid(fs) && IsClean(tmp)
    ensures Valid(DownloadChart(fs, tmp, rand, fetch, url).fs)
  {
    if MkdirTemp(fs, tmp, DownloadPrefix, rand).Ok? {
      var (fs1, tempDir) := MkdirTemp(fs, tmp, DownloadPrefix, rand).value;
      MkdirTempKeepsValid(fs, tmp, DownloadPrefix, rand);
      TempNameNormal(DownloadPrefix, rand);
      var p := Join(tempDir, Base(url));
      JoinIsClean(tempDir, Base(url));
      if Create(fs1, p).Ok? {
        CreateKeepsValid(fs1, p);
        WriteKeepsValid(Create(fs1, p).value, p, if fetch(url).HttpResponse? then fetch(url).body else []);
      }
    }
  }

  lemma JoinBase(dir: Path, url: string)
    ensures Normal(Base(url)) ==> Join(dir, Base(url)) == dir + [Base(url)]
    ensures !Normal(Base(url)) ==> Join(dir, Base(url)) == dir || Join(dir, Base(url)) == Dir(dir)
  {
    var b := Base(url);
    if Normal(b) {
      JoinNormal(dir, b);
    } else if b == "/" {
      assert "/"[1..] == "";
      assert Split(b) == ["", ""];
      assert Join(dir, b) == Resolve(dir, [""]);
    } else {
      assert b == "." || b == ".." by {
        if url != "" {
          var t := TrimTrailingSlashes(url);
          assert t != "" ==> b == AfterLastSlash(t);
        }
      }
      SplitWithoutSlash(b);
      assert Join(dir, b) == Resolve(Push(dir, b), []);
    }
  }

  /**
    A download that succeeds happened in a fresh directory under tmp, answered 200
    with a complete body, and left exactly two new nodes: that directory and, directly
    inside it under the URL's base name, a file holding the body. So the directory the
    server removes afterwards, filepath.Dir of the returned path, is the one created.
   */
  lemma DownloadSucceeded(fs: FS, tmp: Path, rand: nat, fetch: string -> FetchResult, url: string)
    requires Valid(fs)
    requires DownloadChart(fs, tmp, rand, fetch, url).result.Ok?
    ensures
      var r := DownloadChart(fs, tmp, rand, fetch, url);
      var tempDir := DownloadDir(tmp, rand);
      var p := r.result.value;
      && IsDir(fs, tmp) && tempDir !in fs
      && Normal(Base(url)) && p == tempDir + [Base(url)] && Dir(p) == tempDir
      && fetch(url).HttpResponse? && fetch(url).status == StatusOK && fetch(url).bodyError.None?
      && r.fs == fs[tempDir := Directory][p := File(fetch(url).body)]
  {
    var tempDir := DownloadDir(tmp, rand);
    assert MkdirTemp(fs, tmp, DownloadPrefix, rand).Ok?;
    if !Normal(Base(url)) {
      DirectoryBaseFailsCreate(fs, tmp, rand, fetch, fetch, url);
    } else {
      JoinNormal(tempDir, Base(url));
      assert Dir(tempDir + [Base(url)]) == tempDir;
    }
  }

  /**
    When the URL's base name is an ordinary file name, a status other than 200
    fails the download with a message that ends in that status.
   */
  lemma StatusReported(fs: FS, tmp: Path, rand: nat, fetch: string -> FetchResult, url: string)
    requires Valid(fs) && IsDir(fs, tmp) && DownloadDir(tmp, rand) !in fs
    requires Normal(Base(url))
    requires fetch(url).HttpResponse? && fetch(url).status != StatusOK
    ensures
      var r := DownloadChart(fs, tmp, rand, fetch, url);
      && r.result.Err?
      && StatusPrefix <= r.result.error
      && AllDigits(r.result.error[|StatusPrefix|..])
      && ParseDecimal(r.result.error[|StatusPrefix|..]) == fetch(url).status
  {
    var tempDir := DownloadDir(tmp, rand);
    JoinNormal(tempDir, Base(url));
    var p := tempDir + [Base(url)];
    assert p !in fs by {
      assert Dir(p) == tempDir;
    }
    var s := fetch(url).status;
    assert DownloadChart(fs, tmp, rand, fetch, url).result == Err(StatusPrefix + NatToString(s));
    StatusMessageParses(s);
  }

  /**
    When the base name is "/", "." or ".." (a URL ending in "/", "/." or "/..",
    which / lets through), the temp file would be a directory, so the download
    fails at os.Create before anything is fetched, and what the server would
    have answered does not matter.
   */
  lemma DirectoryBaseFailsCreate(fs: FS, tmp: Path, rand: nat, fetch: string -> FetchResult, fetch': string -> FetchResult, url: string)
    requires Valid(fs) && IsDir(fs, tmp) && DownloadDir(tmp, rand) !in fs
    requires !Normal(Base(url))
    ensures
      var r := DownloadChart(fs, tmp, rand, fetch, url);
      && r.result.Err?
      && r.result.error == "failed to create temp file: " +
           ErrorText(PathError("open", Join(DownloadDir(tmp, rand), Base(url)), IsADirectory))
      && r.fs == fs[DownloadDir(tmp, rand) := Directory]
      && r == DownloadChart(fs, tmp, rand, fetch', url)
  {
    var tempDir := DownloadDir(tmp, rand);
    var fs1 := fs[tempDir := Directory];
    JoinBase(tempDir, url);
    var p := Join(tempDir, Base(url));
    assert Dir(tempDir) == tmp;
    assert IsDir(fs1, p);
    assert IsDir(fs1, Dir(p)) by {
      if p != tempDir {
        assert p == tmp;
        assert tmp == [] || IsDir(fs, Dir(tmp));
      }
    }
    assert Create(fs1, p) == Err(PathError("open", p, IsADirectory));
  }

  lemma StatusMessageParses(s: nat)
    ensures
      var msg := StatusPrefix + NatToString(s);
      StatusPrefix <= msg && AllDigits(msg[|StatusPrefix|..]) && ParseDecimal(msg[|StatusPrefix|..]) == s
  {
    var msg := StatusPrefix + NatToString(s);
    assert msg[|StatusPrefix|..] == NatToString(s);
    ParsePrinted(s);
  }

  /**
    No clean-up inside downloadChart: once its directory is made, that directory
    is still there whichever later step fails.
   */
  lemma DownloadDirOutlivesFailure(fs: FS, tmp: Path, rand: nat, fetch: string -> FetchResult, url: string)
    requires MkdirTemp(fs, tmp, DownloadPrefix, rand).Ok?
    ensures IsDir(DownloadChart(fs, tmp, rand, fetch, url).fs, DownloadDir(tmp, rand))
  {
    var tempDir := DownloadDir(tmp, rand);
    var p := Join(tempDir, Base(url));
    var fs1 := fs[tempDir := Directory];
    if Create(fs1, p).Ok? {
      assert p != tempDir;
    }
  }
}
