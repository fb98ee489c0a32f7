/**
  extractTarball: unpack the downloaded archive into a fresh directory
  "helm-extract-<n>" under the temporary directory.

  Gzip decompression and tar header parsing are a parameter `gunzip` that
  maps the file's bytes to an `Archive`. That is a failure of gzip.NewReader,
  or the entries that tar.Reader.Next hands out in order, followed by how the
  stream ended: io.EOF, or a header error. Each entry has its type flag and the
  bytes of its body that could be read; a body that broke off carries the read
  error.

  Every entry is written to filepath.Join(root, name), and nothing checks that
  this stays below root.
 */
module Extract {
  import opened Wrappers
  import opened Text
  import opened FilePath
  import opened FileSystem

  /** tar.TypeDir ('5'), tar.TypeReg ('0'), and any type flag that is neither. */
  datatype Kind = TypeDir | TypeReg | TypeOther

  datatype Entry = Entry(name: string, kind: Kind, data: seq<byte>, readError: Option<string>)

  datatype StreamEnd = Eof | HeaderError(msg: string)

  datatype Archive = GzipError(msg: string) | Tarball(entries: seq<Entry>, end: StreamEnd)

  /** The state after some entries: go on, or stop with the message the loop returns. */
  datatype Progress = Continue(fs: FS) | Abort(fs: FS, msg: string)

  const ExtractPrefix := "helm-extract-"

  /** The directory an extraction with random number rand goes to. */
  function ExtractDir(tmp: Path, rand: nat): Path
  {
    tmp + [TempName(ExtractPrefix, rand)]
  }

  /** The path an entry is written to. */
  function Target(root: Path, e: Entry): Path
  {
    Join(root, e.name)
  }

  /** One iteration of the loop: the switch on the header's type flag. */
  function Step(fs: FS, root: Path, e: Entry): Progress
  {
    var target := Target(root, e);
    match e.kind
    case TypeDir =>
      (match MkdirAll(fs, target)
       case Ok(fs1) => Continue(fs1)
       case Err(err) => Abort(fs, "failed to create directory: " + ErrorText(err)))
    case TypeReg =>
      (match MkdirAll(fs, Dir(target))
       case Err(err) => Abort(fs, "failed to create parent directory: " + ErrorText(err))
       case Ok(fs1) =>
         match Create(fs1, target)
         case Err(err) => Abort(fs1, "failed to create file: " + ErrorText(err))
         case Ok(fs2) =>
           var fs3 := Write(fs2, target, e.data);
           if e.readError.Some? then Abort(fs3, "failed to copy file content: " + e.readError.value)
           else Continue(fs3))
    case TypeOther => Continue(fs)
  }

  /** The loop over the entries, stopping at the first failing one. */
  function Fold(fs: FS, root: Path, es: seq<Entry>): Progress
    decreases |es|
  {
    if es == [] then Continue(fs)
    else
      match Step(fs, root, es[0])
      case Abort(f, m) => Abort(f, m)
      case Continue(f) => Fold(f, root, es[1..])
  }

  /** The whole of extractTarball. */
  function ExtractSpec(fs: FS, gunzip: seq<byte> -> Archive, tarballPath: Path, tmp: Path, rand: nat): Staged<Path>
  {
    if !IsFile(fs, tarballPath) && !IsDir(fs, tarballPath) then
      Staged(fs, Err("failed to open tarball: " + ErrorText(PathError("open", tarballPath, MissingErrno(fs, tarballPath)))))
    else if IsDir(fs, tarballPath) then
      Staged(fs, Err("failed to create gzip reader: " + ErrorText(PathError("read", tarballPath, IsADirectory))))
    else
      match gunzip(fs[tarballPath].data)
      case GzipError(m) => Staged(fs, Err("failed to create gzip reader: " + m))
      case Tarball(entries, end) =>
        match MkdirTemp(fs, tmp, ExtractPrefix, rand)
        case Err(e) => Staged(fs, Err("failed to create extraction directory: " + ErrorText(e)))
        case Ok((fs1, root)) =>
          match Fold(fs1, root, entries)
          case Abort(fs2, m) => Staged(fs2, Err(m))
          case Continue(fs2) =>
            if end.HeaderError? then Staged(fs2, Err("failed to read tar header: " + end.msg))
            else Staged(fs2, Ok(root))
  }

  /** Running the loop over xs and then ys is running it over xs + ys. */
  lemma {:induction false} FoldAppend(fs: FS, root: Path, xs: seq<Entry>, ys: seq<Entry>)
    ensures Fold(fs, root, xs + ys) ==
      match Fold(fs, root, xs)
      case Continue(f) => Fold(f, root, ys)
      case Abort(f, m) => Abort(f, m)
    decreases |xs|
  {
    if xs == [] {
      assert xs + ys == ys;
    } else {
      assert (xs + ys)[0] == xs[0];
      assert (xs + ys)[1..] == xs[1..] + ys;
      if Step(fs, root, xs[0]).Continue? {
        FoldAppend(Step(fs, root, xs[0]).fs, root, xs[1..], ys);
      }
    }
  }

  /** The first failing entry ends the extraction: entries after it are never looked at. */
  lemma FirstErrorAborts(fs: FS, root: Path, es: seq<Entry>, more: seq<Entry>)
    requires Fold(fs, root, es).Abort?
    ensures Fold(fs, root, es + more) == Fold(fs, root, es)
  {
    FoldAppend(fs, root, es, more);
  }

  lemma FoldOneMore(fs: FS, root: Path, es: seq<Entry>, i: nat, cur: FS)
    requires i < |es| && Fold(fs, root, es[..i]) == Continue(cur)
    ensures Fold(fs, root, es[..i + 1]) == Step(cur, root, es[i])
    ensures Step(cur, root, es[i]).Abort? ==> Fold(fs, root, es) == Step(cur, root, es[i])
  {
    assert es[..i + 1] == es[..i] + [es[i]];
    FoldAppend(fs, root, es[..i], [es[i]]);
    assert Fold(cur, root, [es[i]]) == Step(cur, root, es[i]) by {
      assert [es[i]][1..] == [];
    }
    if Step(cur, root, es[i]).Abort? {
      assert es == es[..i + 1] + es[i + 1..];
      FirstErrorAborts(fs, root, es[..i + 1], es[i + 1..]);
    }
  }

  /** extractTarball as the loop it is; it computes ExtractSpec. */
  method ExtractTarball(fs: FS, gunzip: seq<byte> -> Archive, tarballPath: Path, tmp: Path, rand: nat)
    returns (fs': FS, r: Result<Path, string>)
    ensures Staged(fs', r) == ExtractSpec(fs, gunzip, tarballPath, tmp, rand)
  {
    if !IsFile(fs, tarballPath) && !IsDir(fs, tarballPath) {
      return fs, Err("failed to open tarball: " + ErrorText(PathError("open", tarballPath, MissingErrno(fs, tarballPath))));
    }
    if IsDir(fs, tarballPath) {
      return fs, Err("failed to create gzip reader: " + ErrorText(PathError("read", tarballPath, IsADirectory)));
    }
    var archive := gunzip(fs[tarballPath].data);
    if archive.GzipError? {
      return fs, Err("failed to create gzip reader: " + archive.msg);
    }
    var made := MkdirTemp(fs, tmp, ExtractPrefix, rand);
    if made.Err? {
      return fs, Err("failed to create extraction directory: " + ErrorText(made.error));
    }
    var (fs1, root) := made.value;
    var entries := archive.entries;
    var cur := fs1;
    var i := 0;
    while i < |entries|
      invariant 0 <= i <= |entries|
      invariant Fold(fs1, root, entries[..i]) == Continue(cur)
    {
      var header := entries[i];
      var target := Join(root, header.name);
      var step: Progress := Continue(cur);
      match header.kind {
        case TypeDir =>
          var dirs := MkdirAll(cur, target);
          if dirs.Err? {
            step := Abort(cur, "failed to create directory: " + ErrorText(dirs.error));
          } else {
            step := Continue(dirs.value);
          }
        case TypeReg =>
          var dirs := MkdirAll(cur, Dir(target));
          if dirs.Err? {
            step := Abort(cur, "failed to create parent directory: " + ErrorText(dirs.error));
          } else {
            var created := Create(dirs.value, target);
            if created.Err? {
              step := Abort(dirs.value, "failed to create file: " + ErrorText(created.error));
            } else {
              var written := Write(created.value, target, header.data);
              if header.readError.Some? {
                step := Abort(written, "failed to copy file content: " + header.readError.value);
              } else {
                step := Continue(written);
              }
            }
          }
        case TypeOther =>
      }
      assert step == Step(cur, root, header);
      FoldOneMore(fs1, root, entries, i, cur);
      if step.Abort? {
        return step.fs, Err(step.msg);
      }
      cur := step.fs;
      i := i + 1;
    }
    assert entries[..i] == entries;
    if archive.end.HeaderError? {
      return cur, Err("failed to read tar header: " + archive.end.msg);
    }
    return cur, Ok(root);
  }

  /**
    A directory entry succeeds exactly when no prefix of its target is a file,
    and then leaves the target and all its ancestors directories, adding no node
    but those. A failing one changes nothing.
   */
  lemma DirEntryStep(fs: FS, root: Path, e: Entry)
    requires Valid(fs) && e.kind == TypeDir
    ensures Step(fs, root, e).Continue? <==> NoFileOnPath(fs, Target(root, e))
    ensures Step(fs, root, e).Continue? ==>
      forall k :: 0 <= k <= |Target(root, e)| ==> IsDir(Step(fs, root, e).fs, Target(root, e)[..k])
    ensures Step(fs, root, e).Continue? ==>
      forall q :: q in Step(fs, root, e).fs <==> q in fs || (q <= Target(root, e) && q != [])
    ensures Step(fs, root, e).Abort? ==> Step(fs, root, e).fs == fs
  {
    MkdirAllSucceeds(fs, Target(root, e));
    if MkdirAll(fs, Target(root, e)).Ok? {
      MkdirAllEffect(fs, Target(root, e));
    }
  }

  /**
    A regular-file entry creates the missing ancestors of its target and then a
    file there whose contents are exactly the entry's bytes, adding no other
    node. It succeeds exactly when no ancestor of the target is a file, the
    target is not a directory, and the whole body could be read.
   */
  lemma RegEntryStep(fs: FS, root: Path, e: Entry)
    requires Valid(fs) && e.kind == TypeReg
    ensures
      var t := Target(root, e);
      Step(fs, root, e).Continue? <==> NoFileOnPath(fs, Dir(t)) && !IsDir(fs, t) && e.readError.None?
    ensures
      var t := Target(root, e);
      Step(fs, root, e).Continue? ==>
        && Step(fs, root, e).fs[t] == File(e.data)
        && forall k :: 0 <= k < |t| ==> IsDir(Step(fs, root, e).fs, t[..k])
    ensures
      var t := Target(root, e);
      Step(fs, root, e).Continue? ==>
        forall q :: q in Step(fs, root, e).fs <==> q in fs || (q <= t && q != [])
  {
    var t := Target(root, e);
    MkdirAllSucceeds(fs, Dir(t));
    if MkdirAll(fs, Dir(t)).Ok? {
      MkdirAllEffect(fs, Dir(t));
      var fs1 := MkdirAll(fs, Dir(t)).value;
      if Step(fs, root, e).Continue? {
        RegStepNodes(fs, root, e);
      }
      assert IsDir(fs1, t) <==> IsDir(fs, t) by {
        if t != [] && t !in fs {
          assert !(t <= Dir(t));
        }
      }
      forall k | 0 <= k < |t|
        ensures t[..k] == Dir(t)[..k]
      {
      }
    }
  }

  /** The nodes after a regular-file entry: those of MkdirAll of the parent, and the target. */
  lemma RegStepNodes(fs: FS, root: Path, e: Entry)
    requires Valid(fs) && e.kind == TypeReg && Step(fs, root, e).Continue?
    ensures
      var t := Target(root, e);
      forall q :: q in Step(fs, root, e).fs <==> q in fs || (q <= t && q != [])
  {
    var t := Target(root, e);
    MkdirAllEffect(fs, Dir(t));
    assert t != [];
    forall q
      ensures q in Step(fs, root, e).fs <==> q in fs || (q <= t && q != [])
    {
      PrefixOfParent(t, q);
    }
  }

  /** Any other type flag (symlink, device, ...) is skipped. */
  lemma OtherEntryStep(fs: FS, root: Path, e: Entry)
    requires e.kind.TypeOther?
    ensures Step(fs, root, e) == Continue(fs)
  {
  }

  /** A step that goes on changes no existing node, except the target of a regular-file entry. */
  lemma StepKeepsOthers(fs: FS, root: Path, e: Entry, q: Path)
    requires Valid(fs) && Step(fs, root, e).Continue? && q in fs
    requires !(e.kind == TypeReg && q == Target(root, e))
    ensures q in Step(fs, root, e).fs && Step(fs, root, e).fs[q] == fs[q]
  {
    var t := Target(root, e);
    if e.kind == TypeDir {
      MkdirAllEffect(fs, t);
    } else if e.kind == TypeReg {
      MkdirAllEffect(fs, Dir(t));
    }
  }

  /** The loop also keeps a node that no later regular-file entry targets. */
  lemma {:induction false} FoldKeepsUntargeted(fs: FS, root: Path, es: seq<Entry>, q: Path)
    requires Valid(fs) && IsClean(root) && q in fs && Fold(fs, root, es).Continue?
    requires forall j :: 0 <= j < |es| && es[j].kind == TypeReg ==> Target(root, es[j]) != q
    ensures q in Fold(fs, root, es).fs && Fold(fs, root, es).fs[q] == fs[q]
    decreases |es|
  {
    if es != [] {
      var f := Step(fs, root, es[0]).fs;
      StepKeepsOthers(fs, root, es[0], q);
      StepKeepsValid(fs, root, es[0]);
      forall j | 0 <= j < |es[1..]| && es[1..][j].kind == TypeReg
        ensures Target(root, es[1..][j]) != q
      {
        assert es[1..][j] == es[j + 1];
      }
      FoldKeepsUntargeted(f, root, es[1..], q);
    }
  }

  /**
    When the extraction loop finishes, a file extracted from entry i holds the
    bytes of entry i, provided no later regular-file entry had the same target.
    So of several entries with one name, the last one wins.
   */
  lemma LastEntryWins(fs: FS, root: Path, es: seq<Entry>, i: nat)
    requires Valid(fs) && IsClean(root)
    requires i < |es| && es[i].kind == TypeReg && Fold(fs, root, es).Continue?
    requires forall j :: i < j < |es| && es[j].kind == TypeReg ==> Target(root, es[j]) != Target(root, es[i])
    ensures Target(root, es[i]) in Fold(fs, root, es).fs
    ensures Fold(fs, root, es).fs[Target(root, es[i])] == File(es[i].data)
  {
    var t := Target(root, es[i]);
    assert es == es[..i] + es[i..];
    FoldAppend(fs, root, es[..i], es[i..]);
    var mid := Fold(fs, root, es[..i]).fs;
    FoldKeepsValid(fs, root, es[..i]);
    var rest := es[i..];
    assert rest[0] == es[i];
    var after := Step(mid, root, es[i]).fs;
    RegStepWrites(mid, root, es[i]);
    forall j | 0 <= j < |rest[1..]| && rest[1..][j].kind == TypeReg
      ensures Target(root, rest[1..][j]) != t
    {
      assert rest[1..][j] == es[i + 1 + j];
    }
    FoldKeepsUntargeted(after, root, rest[1..], t);
  }

  lemma RegStepWrites(fs: FS, root: Path, e: Entry)
    requires Valid(fs) && IsClean(root) && e.kind == TypeReg && Step(fs, root, e).Continue?
    ensures Valid(Step(fs, root, e).fs)
    ensures Target(root, e) in Step(fs, root, e).fs && Step(fs, root, e).fs[Target(root, e)] == File(e.data)
  {
    RegEntryStep(fs, root, e);
    StepKeepsValid(fs, root, e);
  }

  /** Every step keeps the file system valid, whether it goes on or stops. */
  lemma StepKeepsValid(fs: FS, root: Path, e: Entry)
    requires Valid(fs) && IsClean(root)
    ensures Valid(Step(fs, root, e).fs)
  {
    var t := Target(root, e);
    JoinIsClean(root, e.name);
    if e.kind == TypeDir {
      if MkdirAll(fs, t).Ok? {
        MkdirAllValid(fs, t);
      }
    } else if e.kind == TypeReg {
      PrefixIsClean(t, Dir(t));
      if MkdirAll(fs, Dir(t)).Ok? {
        MkdirAllValid(fs, Dir(t));
        var fs1 := MkdirAll(fs, Dir(t)).value;
        if Create(fs1, t).Ok? {
          CreateKeepsValid(fs1, t);
          WriteKeepsValid(Create(fs1, t).value, t, e.data);
        }
      }
    }
  }

  lemma {:induction false} FoldKeepsValid(fs: FS, root: Path, es: seq<Entry>)
    requires Valid(fs) && IsClean(root)
    ensures Valid(Fold(fs, root, es).fs)
    decreases |es|
  {
    if es != [] {
      StepKeepsValid(fs, root, es[0]);
      if Step(fs, root, es[0]).Continue? {
        FoldKeepsValid(Step(fs, root, es[0]).fs, root, es[1..]);
      }
    }
  }

  /** Nothing is removed, and every node that is new or different lies strictly below root. */
  ghost predicate ChangedOnlyBelow(fs: FS, fs': FS, root: Path)
  {
    && (forall q :: q in fs ==> q in fs')
    && (forall q :: q in fs' && (q !in fs || fs'[q] != fs[q]) ==> root <= q && q != root)
  }

  /** The nodes MkdirAll adds to a path below an existing directory root lie strictly below root. */
  lemma MkdirAllBelow(fs: FS, root: Path, p: Path)
    requires Valid(fs) && IsDir(fs, root) && root <= p && MkdirAll(fs, p).Ok?
    ensures ChangedOnlyBelow(fs, MkdirAll(fs, p).value, root)
  {
    MkdirAllEffect(fs, p);
    var fs' := MkdirAll(fs, p).value;
    forall q | q in fs' && q !in fs
      ensures root <= q && q != root
    {
      assert q <= p && q != [];
      AncestorsPresent(fs, root, q);
      assert |q| <= |root| ==> q <= root;
      assert |q| > |root| ==> root == q[..|root|];
    }
  }

  lemma AncestorsPresent(fs: FS, root: Path, q: Path)
    requires Valid(fs) && IsDir(fs, root)
    ensures q <= root && q != [] ==> q in fs
  {
    if q <= root {
      AncestorsOfDir(fs, root);
      assert q == root[..|q|];
    }
  }

  /** One entry whose name has no ".." segment changes nothing outside root. */
  lemma StepBelow(fs: FS, root: Path, e: Entry)
    requires Valid(fs) && IsDir(fs, root) && ".." !in Split(e.name)
    ensures ChangedOnlyBelow(fs, Step(fs, root, e).fs, root)
  {
    var t := Target(root, e);
    JoinStaysUnder(root, e.name);
    if e.kind == TypeDir {
      if MkdirAll(fs, t).Ok? {
        MkdirAllBelow(fs, root, t);
      }
    } else if e.kind == TypeReg {
      if MkdirAll(fs, Dir(t)).Ok? {
        var fs1 := MkdirAll(fs, Dir(t)).value;
        if t == root {
          assert IsDir(fs, Dir(t));
          assert fs1 == fs;
        } else {
          assert root <= Dir(t) by {
            assert Dir(t) == t[..|t| - 1];
          }
          MkdirAllBelow(fs, root, Dir(t));
        }
      }
    }
  }

  lemma {:induction false} FoldBelow(fs: FS, root: Path, es: seq<Entry>)
    requires Valid(fs) && IsClean(root) && IsDir(fs, root)
    requires forall i :: 0 <= i < |es| ==> ".." !in Split(es[i].name)
    ensures ChangedOnlyBelow(fs, Fold(fs, root, es).fs, root)
    decreases |es|
  {
    if es != [] {
      var f := Step(fs, root, es[0]).fs;
      StepBelow(fs, root, es[0]);
      StepKeepsValid(fs, root, es[0]);
      if Step(fs, root, es[0]).Continue? {
        assert IsDir(f, root) by {
          if root != [] {
            assert root in fs;
          }
        }
        FoldBelow(f, root, es[1..]);
        var g := Fold(f, root, es[1..]).fs;
        forall q | q in g && (q !in fs || g[q] != fs[q])
          ensures root <= q && q != root
        {
          if q in f && q in fs && f[q] == fs[q] {
            assert g[q] != f[q];
          }
        }
      }
    }
  }

  /**
    The containment the extractor does give: when no entry name has a ".."
    segment, extraction into a fresh root removes nothing and creates or
    changes nothing outside that root, whether it succeeds or fails.
   */
  lemma ExtractionStaysInRoot(fs: FS, gunzip: seq<byte> -> Archive, tarballPath: Path, tmp: Path, rand: nat)
    requires Valid(fs) && IsClean(tmp) && IsFile(fs, tarballPath)
    requires gunzip(fs[tarballPath].data).Tarball?
    requires forall e :: e in gunzip(fs[tarballPath].data).entries ==> ".." !in Split(e.name)
    requires MkdirTemp(fs, tmp, ExtractPrefix, rand).Ok?
    ensures
      var root := ExtractDir(tmp, rand);
      var final := ExtractSpec(fs, gunzip, tarballPath, tmp, rand).fs;
      && (forall q :: q in fs ==> q in final)
      && (forall q :: q in final && (q !in fs || final[q] != fs[q]) ==> root <= q)
  {
    var root := ExtractDir(tmp, rand);
    var fs1 := fs[root := Directory];
    var entries := gunzip(fs[tarballPath].data).entries;
    MkdirTempKeepsValid(fs, tmp, ExtractPrefix, rand);
    TempNameNormal(ExtractPrefix, rand);
    forall i | 0 <= i < |entries|
      ensures ".." !in Split(entries[i].name)
    {
      assert entries[i] in entries;
    }
    FoldBelow(fs1, root, entries);
    ExtractAfterMkdir(fs, gunzip, tarballPath, tmp, rand);
    var final := Fold(fs1, root, entries).fs;
    forall q | q in final && (q !in fs || final[q] != fs[q])
      ensures root <= q
    {
      if q != root {
        assert q in fs ==> fs1[q] == fs[q];
      }
    }
  }

  /** extractTarball keeps the file system well formed, whether it succeeds or fails. */
  lemma ExtractKeepsValid(fs: FS, gunzip: seq<byte> -> Archive, tarballPath: Path, tmp: Path, rand: nat)
    requires Valid(fs) && IsClean(tmp)
    ensures Valid(ExtractSpec(fs, gunzip, tarballPath, tmp, rand).fs)
  {
    if IsFile(fs, tarballPath) && gunzip(fs[tarballPath].data).Tarball? && MkdirTemp(fs, tmp, ExtractPrefix, rand).Ok? {
      var root := ExtractDir(tmp, rand);
      MkdirTempKeepsValid(fs, tmp, ExtractPrefix, rand);
      TempNameNormal(ExtractPrefix, rand);
      FoldKeepsValid(fs[root := Directory], root, gunzip(fs[tarballPath].data).entries);
      ExtractAfterMkdir(fs, gunzip, tarballPath, tmp, rand);
    }
  }

  /** Once the extraction directory exists, what is left behind is what the loop left. */
  lemma ExtractAfterMkdir(fs: FS, gunzip: seq<byte> -> Archive, tarballPath: Path, tmp: Path, rand: nat)
    requires Valid(fs) && IsFile(fs, tarballPath) && gunzip(fs[tarballPath].data).Tarball?
    requires MkdirTemp(fs, tmp, ExtractPrefix, rand).Ok?
    ensures
      var root := ExtractDir(tmp, rand);
      ExtractSpec(fs, gunzip, tarballPath, tmp, rand).fs == Fold(fs[root := Directory], root, gunzip(fs[tarballPath].data).entries).fs
  {
  }

  /**
    And the containment it does not give: an entry "../evil" writes a file
    next to the extraction directory, outside it.
   */
  lemma TraversalEscapesRoot(fs: FS, root: Path, data: seq<byte>)
    requires Valid(fs) && root != [] && root[|root| - 1] != "evil" && IsDir(fs, root)
    requires !IsDir(fs, Dir(root) + ["evil"])
    ensures
      var e := Entry("../evil", TypeReg, data, None);
      && Step(fs, root, e).Continue?
      && Dir(root) + ["evil"] in Step(fs, root, e).fs
      && Step(fs, root, e).fs[Dir(root) + ["evil"]] == File(data)
      && !(root <= Dir(root) + ["evil"])
  {
    var e := Entry("../evil", TypeReg, data, None);
    JoinEscapes(root);
    assert Target(root, e) == Dir(root) + ["evil"];
    AncestorsOfDir(fs, root);
    assert IsDir(fs, root[..|root| - 1]);
    assert NoFileOnPath(fs, Dir(root)) by {
      AncestorsOfDir(fs, Dir(root));
    }
    RegEntryStep(fs, root, e);
  }

  /**
    A successful extraction created a fresh directory under tmp, read the whole
    stream to its end, and got through every entry; no failure returns a root.
   */
  lemma ExtractSucceeded(fs: FS, gunzip: seq<byte> -> Archive, tarballPath: Path, tmp: Path, rand: nat)
    requires ExtractSpec(fs, gunzip, tarballPath, tmp, rand).result.Ok?
    ensures
      var root := ExtractSpec(fs, gunzip, tarballPath, tmp, rand).result.value;
      var archive := gunzip(fs[tarballPath].data);
      && IsFile(fs, tarballPath)
      && root == ExtractDir(tmp, rand) && root !in fs && IsDir(fs, tmp)
      && archive.Tarball? && archive.end == Eof
      && Fold(fs[root := Directory], root, archive.entries) == Continue(ExtractSpec(fs, gunzip, tarballPath, tmp, rand).fs)
  {
  }

  /**
    No clean-up inside extractTarball: a stream that fails after the extraction
    directory exists leaves that directory, and whatever was already written, behind.
   */
  lemma ExtractDirOutlivesFailure(fs: FS, gunzip: seq<byte> -> Archive, tarballPath: Path, tmp: Path, rand: nat)
    requires Valid(fs) && IsClean(tmp) && IsFile(fs, tarballPath)
    requires gunzip(fs[tarballPath].data).Tarball? && MkdirTemp(fs, tmp, ExtractPrefix, rand).Ok?
    ensures IsDir(ExtractSpec(fs, gunzip, tarballPath, tmp, rand).fs, ExtractDir(tmp, rand))
  {
    var root := ExtractDir(tmp, rand);
    var fs1 := fs[root := Directory];
    var entries := gunzip(fs[tarballPath].data).entries;
    MkdirTempKeepsValid(fs, tmp, ExtractPrefix, rand);
    TempNameNormal(ExtractPrefix, rand);
    FoldNeverReplacesRoot(fs1, root, entries);
  }

  /** No entry, whatever its name, turns the extraction directory into something else. */
  lemma {:induction false} FoldNeverReplacesRoot(fs: FS, root: Path, es: seq<Entry>)
    requires Valid(fs) && IsClean(root) && IsDir(fs, root)
    ensures IsDir(Fold(fs, root, es).fs, root)
    decreases |es|
  {
    if es != [] {
      var e := es[0];
      var t := Target(root, e);
      AncestorsOfDir(fs, root);
      if e.kind == TypeDir {
        if MkdirAll(fs, t).Ok? {
          MkdirAllEffect(fs, t);
        }
      } else if e.kind == TypeReg {
        if MkdirAll(fs, Dir(t)).Ok? {
          MkdirAllEffect(fs, Dir(t));
        }
      }
      StepKeepsValid(fs, root, e);
      if Step(fs, root, e).Continue? {
        FoldNeverReplacesRoot(Step(fs, root, e).fs, root, es[1..]);
      }
    }
  }

  /**
    An entry without ".." in its name has the same effect below whatever
    directory it is extracted into: it goes on or stops alike, and leaves the
    subtree below root that it leaves below "/" in root's subtree.
   */
  lemma StepShift(fs: FS, root: Path, e: Entry)
    requires Valid(fs) && IsDir(fs, root) && ".." !in Split(e.name)
    ensures Step(fs, root, e).Continue? == Step(SubTree(fs, root), [], e).Continue?
    ensures Step(fs, root, e).Continue? ==> SubTree(Step(fs, root, e).fs, root) == Step(SubTree(fs, root), [], e).fs
  {
    var rel := Join([], e.name);
    JoinShift(root, e.name);
    assert Target(root, e) == root + rel && Target([], e) == rel;
    if e.kind == TypeDir {
      MkdirAllShift(fs, root, rel);
    } else if e.kind == TypeReg {
      assert IsDir(fs, Dir(root));
      RegStepShift(fs, root, e, rel);
    }
  }

  lemma RegStepShift(fs: FS, root: Path, e: Entry, rel: Path)
    requires IsDir(fs, root) && IsDir(fs, Dir(root)) && e.kind == TypeReg
    requires Target(root, e) == root + rel && Target([], e) == rel
    ensures Step(fs, root, e).Continue? == Step(SubTree(fs, root), [], e).Continue?
    ensures Step(fs, root, e).Continue? ==> SubTree(Step(fs, root, e).fs, root) == Step(SubTree(fs, root), [], e).fs
  {
    if rel == [] {
      assert Target(root, e) == root;
      assert Step(SubTree(fs, root), [], e).Abort?;
    } else {
      RegStepShiftBelow(fs, root, e, rel);
    }
  }

  lemma RegStepShiftBelow(fs: FS, root: Path, e: Entry, rel: Path)
    requires IsDir(fs, root) && e.kind == TypeReg && rel != []
    requires Target(root, e) == root + rel && Target([], e) == rel
    ensures Step(fs, root, e).Continue? == Step(SubTree(fs, root), [], e).Continue?
    ensures Step(fs, root, e).Continue? ==> SubTree(Step(fs, root, e).fs, root) == Step(SubTree(fs, root), [], e).fs
  {
    assert Dir(root + rel) == root + Dir(rel);
    MkdirAllShift(fs, root, Dir(rel));
    if MkdirAll(fs, root + Dir(rel)).Ok? {
      var fs1 := MkdirAll(fs, root + Dir(rel)).value;
      CreateShift(fs1, root, rel);
      if Create(fs1, root + rel).Ok? {
        SubTreeUpdate(Create(fs1, root + rel).value, root, rel, File(e.data));
      }
    }
  }

  lemma {:induction false} FoldShift(fs: FS, root: Path, es: seq<Entry>)
    requires Valid(fs) && IsClean(root) && IsDir(fs, root)
    requires forall i :: 0 <= i < |es| ==> ".." !in Split(es[i].name)
    ensures Fold(fs, root, es).Continue? == Fold(SubTree(fs, root), [], es).Continue?
    ensures Fold(fs, root, es).Continue? ==> SubTree(Fold(fs, root, es).fs, root) == Fold(SubTree(fs, root), [], es).fs
    decreases |es|
  {
    if es != [] {
      StepShift(fs, root, es[0]);
      if Step(fs, root, es[0]).Continue? {
        var f := Step(fs, root, es[0]).fs;
        StepKeepsValid(fs, root, es[0]);
        StepBelow(fs, root, es[0]);
        assert IsDir(f, root) by {
          if root != [] {
            assert root in fs;
          }
        }
        FoldShift(f, root, es[1..]);
      }
    }
  }

  /**
    What extraction puts below its directory depends on the archive alone, not
    on where that directory is: when no entry name has a ".." segment, the
    extraction succeeds exactly when the loop succeeds on an empty tree, and
    then the tree below the extraction directory is the one the loop builds
    there.
   */
  lemma ExtractRelocated(fs: FS, gunzip: seq<byte> -> Archive, tarballPath: Path, tmp: Path, rand: nat)
    requires Valid(fs) && IsClean(tmp) && IsFile(fs, tarballPath)
    requires gunzip(fs[tarballPath].data).Tarball?
    requires forall e :: e in gunzip(fs[tarballPath].data).entries ==> ".." !in Split(e.name)
    requires MkdirTemp(fs, tmp, ExtractPrefix, rand).Ok?
    ensures
      var archive := gunzip(fs[tarballPath].data);
      var x := ExtractSpec(fs, gunzip, tarballPath, tmp, rand);
      var inEmpty := Fold(map[], [], archive.entries);
      && (x.result.Ok? <==> inEmpty.Continue? && archive.end == Eof)
      && (x.result.Ok? ==> SubTree(x.fs, ExtractDir(tmp, rand)) == inEmpty.fs)
  {
    var root := ExtractDir(tmp, rand);
    var fs1 := fs[root := Directory];
    var entries := gunzip(fs[tarballPath].data).entries;
    MkdirTempKeepsValid(fs, tmp, ExtractPrefix, rand);
    FreshSubTreeEmpty(fs, root);
    forall i | 0 <= i < |entries|
      ensures ".." !in Split(entries[i].name)
    {
      assert entries[i] in entries;
    }
    FoldShift(fs1, root, entries);
  }

  /** A directory just created in a valid tree has nothing below it. */
  lemma FreshSubTreeEmpty(fs: FS, root: Path)
    requires Valid(fs) && root != [] && root !in fs
    ensures SubTree(fs[root := Directory], root) == map[]
  {
    NothingBelowMissing(fs, root);
    var t := SubTree(fs[root := Directory], root);
    forall rel
      ensures rel !in t
    {
      SubTreeAt(fs[root := Directory], root, rel);
    }
  }
}
