/**
  The operating-system file system as the server sees it through package os:
  a map from clean absolute paths to nodes, with "/" (the empty path) always
  present as a directory. Each os call the server makes is a function from the
  old map to a new map or to an error:
  - os.MkdirAll and os.MkdirTemp create directories;
  - os.Create creates or truncates a file;
  - os.ReadFile and os.ReadDir read;
  - os.RemoveAll deletes a subtree.
  Errors carry the op, the path and the errno, as Go's *PathError does.

  `Valid` is the shape a real file system has: every node's parent is a
  directory, so nothing hangs below a file or below a missing directory.
 */
module FileSystem {
  import opened Wrappers
  import opened Text
  import opened FilePath

  datatype Node = Directory | File(data: seq<byte>)

  type FS = map<Path, Node>

  predicate IsDir(fs: FS, p: Path)
  {
    p == [] || (p in fs && fs[p].Directory?)
  }

  predicate IsFile(fs: FS, p: Path)
  {
    p in fs && fs[p].File?
  }

  ghost predicate Valid(fs: FS)
  {
    && [] !in fs
    && forall p :: p in fs ==> IsClean(p) && IsDir(fs, Dir(p))
  }

  /**
    The errno values the modelled calls can fail with; `ErrExist` is Go's
    fs.ErrExist, which os.MkdirTemp reports when it runs out of names.
   */
  datatype Errno = NoEntry | NotADirectory | IsADirectory | ErrExist

  function ErrnoText(e: Errno): string
  {
    match e
    case NoEntry => "no such file or directory"
    case NotADirectory => "not a directory"
    case IsADirectory => "is a directory"
    case ErrExist => "file already exists"
  }

  /** Go's *os.PathError. */
  datatype FsError = PathError(op: string, path: Path, errno: Errno)

  function ErrorText(e: FsError): string
  {
    e.op + " " + PathString(e.path) + ": " + ErrnoText(e.errno)
  }

  /** os.IsNotExist(err). */
  predicate IsNotExist(e: FsError)
  {
    e.errno == NoEntry
  }

  /** Some proper ancestor of p is a file. */
  predicate FileAbove(fs: FS, p: Path)
  {
    exists k :: 0 <= k < |p| && IsFile(fs, p[..k])
  }

  /** Why a lookup of the missing path p fails: a file on the way, or nothing there. */
  function MissingErrno(fs: FS, p: Path): Errno
  {
    if FileAbove(fs, p) then NotADirectory else NoEntry
  }

  /** No prefix of p, p itself included, is a file. */
  predicate NoFileOnPath(fs: FS, p: Path)
  {
    forall k :: 0 <= k <= |p| ==> !IsFile(fs, p[..k])
  }

  /**
    os.MkdirAll(p, 0755): nothing to do when p is a directory, ENOTDIR when it
    is a file, and otherwise the parent first, then p.
   */
  function MkdirAll(fs: FS, p: Path): Result<FS, FsError>
    decreases |p|
  {
    if IsDir(fs, p) then Ok(fs)
    else if p in fs then Err(PathError("mkdir", p, NotADirectory))
    else
      match MkdirAll(fs, Dir(p))
      case Err(e) => Err(e)
      case Ok(fs1) => Ok(fs1[p := Directory])
  }

  /** In a valid file system every prefix of a directory is a directory. */
  lemma {:induction false} AncestorsOfDir(fs: FS, p: Path)
    requires Valid(fs) && IsDir(fs, p)
    ensures forall k :: 0 <= k <= |p| ==> IsDir(fs, p[..k])
    decreases |p|
  {
    if p != [] {
      AncestorsOfDir(fs, Dir(p));
      forall k | 0 <= k <= |p|
        ensures IsDir(fs, p[..k])
      {
        if k < |p| {
          assert p[..k] == Dir(p)[..k];
        } else {
          assert p[..k] == p;
        }
      }
    }
  }

  /** Prefixes of a clean path are clean. */
  lemma PrefixIsClean(p: Path, q: Path)
    requires IsClean(p) && q <= p
    ensures IsClean(q)
  {
    forall i | 0 <= i < |q| ensures Normal(q[i]) {
      assert q[i] == p[i];
    }
  }

  /** MkdirAll succeeds exactly when no prefix of p is a file; otherwise it fails at such a file. */
  lemma {:induction false} MkdirAllSucceeds(fs: FS, p: Path)
    requires Valid(fs)
    ensures MkdirAll(fs, p).Ok? <==> NoFileOnPath(fs, p)
    ensures MkdirAll(fs, p).Err? ==>
      var e := MkdirAll(fs, p).error;
      e.path <= p && IsFile(fs, e.path) && e.errno == NotADirectory
    decreases |p|
  {
    if IsDir(fs, p) {
      AncestorsOfDir(fs, p);
    } else if p in fs {
      assert p[..|p|] == p;
    } else {
      var d := Dir(p);
      MkdirAllSucceeds(fs, d);
      if MkdirAll(fs, d).Err? {
        var k :| 0 <= k <= |d| && IsFile(fs, d[..k]);
        assert d[..k] == p[..k];
      } else {
        forall k | 0 <= k <= |p|
          ensures !IsFile(fs, p[..k])
        {
          if k < |p| {
            assert p[..k] == d[..k];
          } else {
            assert p[..k] == p;
          }
        }
      }
    }
  }

  /** A successful MkdirAll leaves every prefix of p a directory, adds exactly the missing prefixes and changes no existing node. */
  lemma {:induction false} MkdirAllEffect(fs: FS, p: Path)
    requires Valid(fs) && MkdirAll(fs, p).Ok?
    ensures
      var fs' := MkdirAll(fs, p).value;
      && (forall k :: 0 <= k <= |p| ==> IsDir(fs', p[..k]))
      && (forall q :: q in fs' <==> q in fs || (q <= p && q != []))
      && (forall q :: q in fs ==> fs'[q] == fs[q])
    decreases |p|
  {
    if IsDir(fs, p) {
      AncestorsOfDir(fs, p);
      forall q | q <= p && q != []
        ensures q in fs
      {
        assert q == p[..|q|];
      }
    } else {
      var d := Dir(p);
      MkdirAllEffect(fs, d);
      var fs1 := MkdirAll(fs, d).value;
      var fs' := fs1[p := Directory];
      forall k | 0 <= k <= |p|
        ensures IsDir(fs', p[..k])
      {
        if k < |p| {
          assert p[..k] == d[..k];
        } else {
          assert p[..k] == p;
        }
      }
      forall q | q in fs' && q !in fs
        ensures q <= p && q != []
      {
      }
      forall k | 0 < k < |p|
        ensures p[..k] in fs1
      {
        assert p[..k] == d[..k];
      }
      forall q | q <= p && q != []
        ensures q in fs'
      {
        assert q == p[..|q|];
      }
    }
  }

  /** MkdirAll keeps the file system valid. */
  lemma {:induction false} MkdirAllValid(fs: FS, p: Path)
    requires Valid(fs) && IsClean(p) && MkdirAll(fs, p).Ok?
    ensures Valid(MkdirAll(fs, p).value)
    decreases |p|
  {
    if !IsDir(fs, p) {
      var d := Dir(p);
      PrefixIsClean(p, d);
      MkdirAllValid(fs, d);
      MkdirAllEffect(fs, d);
      var fs1 := MkdirAll(fs, d).value;
      assert IsDir(fs1, d[..|d|]);
      assert d[..|d|] == d;
    }
  }

  /**
    os.Create(p): open with O_CREATE|O_TRUNC. It fails when the parent is not a
    directory, and with EISDIR when p is a directory. Otherwise p is an empty file.
   */
  function Create(fs: FS, p: Path): (r: Result<FS, FsError>)
  {
    if !IsDir(fs, Dir(p)) then Err(PathError("open", p, MissingErrno(fs, p)))
    else if IsDir(fs, p) then Err(PathError("open", p, IsADirectory))
    else Ok(fs[p := File([])])
  }

  lemma CreateKeepsValid(fs: FS, p: Path)
    requires Valid(fs) && IsClean(p) && Create(fs, p).Ok?
    ensures Valid(Create(fs, p).value)
  {
  }

  /** The contents a Write of data leaves in the file p that Create just opened. */
  function Write(fs: FS, p: Path, data: seq<byte>): (r: FS)
  {
    fs[p := File(data)]
  }

  lemma WriteKeepsValid(fs: FS, p: Path, data: seq<byte>)
    requires Valid(fs) && IsFile(fs, p)
    ensures Valid(Write(fs, p, data))
  {
  }

  /** os.ReadFile(p). */
  function ReadFile(fs: FS, p: Path): Result<seq<byte>, FsError>
  {
    if IsFile(fs, p) then Ok(fs[p].data)
    else if IsDir(fs, p) then Err(PathError("read", p, IsADirectory))
    else Err(PathError("open", p, MissingErrno(fs, p)))
  }

  /** ReadFile returns a file's contents, and reports a plain "does not exist" exactly for a missing path under a directory. */
  lemma ReadFileSpec(fs: FS, p: Path)
    requires Valid(fs) && IsDir(fs, Dir(p))
    ensures ReadFile(fs, p).Ok? <==> IsFile(fs, p)
    ensures ReadFile(fs, p).Ok? ==> fs[p] == File(ReadFile(fs, p).value)
    ensures ReadFile(fs, p).Err? ==> (IsNotExist(ReadFile(fs, p).error) <==> p !in fs && p != [])
  {
    if p !in fs && p != [] {
      AncestorsOfDir(fs, Dir(p));
      forall k | 0 <= k < |p|
        ensures !IsFile(fs, p[..k])
      {
        assert p[..k] == Dir(p)[..k];
      }
    }
  }

  /** One item of an os.ReadDir listing. */
  datatype DirEntry = DirEntry(name: string, isDir: bool)

  /** The names of d's immediate children. */
  function Children(fs: FS, d: Path): set<string>
  {
    set p | p in fs && |p| == |d| + 1 && d <= p :: p[|d|]
  }

  /** The children of d, sorted by name, as os.ReadDir returns them. */
  function Listing(fs: FS, d: Path): seq<DirEntry>
  {
    var names := SortedNames(Children(fs, d));
    seq(|names|, i requires 0 <= i < |names| => DirEntry(names[i], IsDir(fs, d + [names[i]])))
  }

  /**
    The listing names each child of d once, in increasing order of name, and
    says truly which of them are directories.
   */
  lemma ListingSpec(fs: FS, d: Path)
    ensures forall i :: 0 <= i < |Listing(fs, d)| ==>
      d + [Listing(fs, d)[i].name] in fs &&
      Listing(fs, d)[i].isDir == IsDir(fs, d + [Listing(fs, d)[i].name])
    ensures forall i, j :: 0 <= i < j < |Listing(fs, d)| ==> Less(Listing(fs, d)[i].name, Listing(fs, d)[j].name)
    ensures forall name :: d + [name] in fs ==> exists i :: 0 <= i < |Listing(fs, d)| && Listing(fs, d)[i].name == name
  {
    var names := SortedNames(Children(fs, d));
    var l := Listing(fs, d);
    forall i | 0 <= i < |l|
      ensures d + [l[i].name] in fs
    {
      assert names[i] in Children(fs, d);
      var p :| p in fs && |p| == |d| + 1 && d <= p && p[|d|] == names[i];
      assert p == d + [names[i]];
    }
    forall name | d + [name] in fs
      ensures exists i :: 0 <= i < |l| && l[i].name == name
    {
      var p := d + [name];
      assert p[|d|] == name;
      assert name in Children(fs, d);
      var i :| 0 <= i < |names| && names[i] == name;
      assert l[i].name == name;
    }
  }

  /** os.ReadDir(d). */
  function ReadDir(fs: FS, d: Path): Result<seq<DirEntry>, FsError>
  {
    if IsDir(fs, d) then Ok(Listing(fs, d))
    else if IsFile(fs, d) then Err(PathError("readdirent", d, NotADirectory))
    else Err(PathError("open", d, MissingErrno(fs, d)))
  }

  /** os.RemoveAll(p): p and everything below it disappear; its error is never looked at. */
  function RemoveAll(fs: FS, p: Path): (r: FS)
    ensures forall q :: q in r <==> q in fs && !(p <= q)
    ensures forall q :: q in r ==> r[q] == fs[q]
    ensures Valid(fs) ==> Valid(r)
  {
    var r := map q | q in fs && !(p <= q) :: fs[q];
    assert Valid(fs) ==> Valid(r) by {
      if Valid(fs) {
        forall q | q in r
          ensures IsDir(r, Dir(q))
        {
          assert Dir(q) <= q;
        }
      }
    }
    r
  }

  /** The name os.MkdirTemp gives a new directory: the pattern and a decimal random number. */
  function TempName(prefix: string, rand: nat): string
  {
    prefix + NatToString(rand)
  }

  lemma TempNameNormal(prefix: string, rand: nat)
    requires '/' !in prefix
    ensures Normal(TempName(prefix, rand))
  {
    var digits := NatToString(rand);
    var n := TempName(prefix, rand);
    assert n[|n| - 1] == digits[|digits| - 1];
    assert IsDigit(n[|n| - 1]);
    assert '/' !in n by {
      forall i | 0 <= i < |n| ensures n[i] != '/' {
        if i >= |prefix| {
          assert n[i] == digits[i - |prefix|];
        }
      }
    }
  }

  /**
    os.MkdirTemp(dir, prefix + "*") with the random number the runtime draws.
    Its os.Mkdir fails with ENOTDIR when dir or one of its ancestors is a file;
    with ENOENT when dir is missing, and then the error returned is that of
    os.Stat(dir). Go draws a new number when the name is taken, and gives up
    with fs.ErrExist after 10000 tries; the model is handed the number that is
    finally used, and reports that error when its name is taken.
   */
  function MkdirTemp(fs: FS, dir: Path, prefix: string, rand: nat): (r: Result<(FS, Path), FsError>)
    ensures r.Ok? ==> r.value.1 == dir + [TempName(prefix, rand)]
    ensures r.Ok? <==> IsDir(fs, dir) && dir + [TempName(prefix, rand)] !in fs
    ensures r.Ok? ==> r.value.0 == fs[r.value.1 := Directory] && r.value.1 !in fs
    ensures r.Err? && !IsDir(fs, dir) && FileAbove(fs, dir + [TempName(prefix, rand)]) ==>
      r.error == PathError("mkdir", dir + [TempName(prefix, rand)], NotADirectory)
    ensures r.Err? && !IsDir(fs, dir) && !FileAbove(fs, dir + [TempName(prefix, rand)]) ==>
      r.error == PathError("stat", dir, NoEntry)
    ensures r.Err? && IsDir(fs, dir) ==> r.error == PathError("mkdirtemp", dir + [prefix + "*"], ErrExist)
  {
    var p := dir + [TempName(prefix, rand)];
    if !IsDir(fs, dir) then
      if FileAbove(fs, p) then Err(PathError("mkdir", p, NotADirectory))
      else Err(PathError("stat", dir, NoEntry))
    else if p in fs then Err(PathError("mkdirtemp", dir + [prefix + "*"], ErrExist))
    else Ok((fs[p := Directory], p))
  }

  lemma MkdirTempKeepsValid(fs: FS, dir: Path, prefix: string, rand: nat)
    requires Valid(fs) && IsClean(dir) && '/' !in prefix
    requires MkdirTemp(fs, dir, prefix, rand).Ok?
    ensures Valid(MkdirTemp(fs, dir, prefix, rand).value.0)
  {
    TempNameNormal(prefix, rand);
  }

  /** What a stage of the server returns: the file system it leaves behind, and its value or error text. */
  datatype Staged<T> = Staged(fs: FS, result: Result<T, string>)

  /** The tree os.DirFS(root) shows: the nodes strictly below root, by relative path. */
  function SubTree(fs: FS, root: Path): map<Path, Node>
  {
    var rels := set q | q in fs && root <= q && q != root :: q[|root|..];
    assert forall rel :: rel in rels ==> root + rel in fs by {
      forall rel | rel in rels
        ensures root + rel in fs
      {
        var q :| q in fs && root <= q && q != root && q[|root|..] == rel;
        assert q == root + rel;
      }
    }
    map rel | rel in rels :: fs[root + rel]
  }

  /** The node at rel in root's subtree is the node at root + rel; the subtree never holds root itself. */
  lemma SubTreeAt(fs: FS, root: Path, rel: Path)
    ensures rel in SubTree(fs, root) <==> rel != [] && root + rel in fs
    ensures rel in SubTree(fs, root) ==> SubTree(fs, root)[rel] == fs[root + rel]
  {
    var q := root + rel;
    assert q[|root|..] == rel;
    if rel in SubTree(fs, root) {
      var q' :| q' in fs && root <= q' && q' != root && q'[|root|..] == rel;
      assert q' == root + q'[|root|..];
    }
  }

  /** Below a directory root, kinds of node read the same in the subtree. */
  lemma SubTreeKinds(fs: FS, root: Path, rel: Path)
    requires IsDir(fs, root)
    ensures IsDir(SubTree(fs, root), rel) <==> IsDir(fs, root + rel)
    ensures rel != [] ==> (IsFile(SubTree(fs, root), rel) <==> IsFile(fs, root + rel))
  {
    SubTreeAt(fs, root, rel);
    if rel == [] {
      assert root + rel == root;
    }
  }

  /** Changing a node strictly below root changes the subtree at the same relative path. */
  lemma SubTreeUpdate(fs: FS, root: Path, rel: Path, n: Node)
    requires rel != []
    ensures SubTree(fs[root + rel := n], root) == SubTree(fs, root)[rel := n]
  {
    var a := SubTree(fs[root + rel := n], root);
    var b := SubTree(fs, root)[rel := n];
    forall k
      ensures k in a <==> k in b
      ensures k in a ==> a[k] == b[k]
    {
      SubTreeAt(fs[root + rel := n], root, k);
      SubTreeAt(fs, root, k);
      assert root + k == root + rel ==> k == rel by {
        if root + k == root + rel {
          assert k == (root + k)[|root|..];
          assert rel == (root + rel)[|root|..];
        }
      }
    }
  }

  /** A subtree of a subtree is the subtree at the joined path. */
  lemma SubTreeNested(fs: FS, root: Path, rel: Path)
    ensures SubTree(fs, root + rel) == SubTree(SubTree(fs, root), rel)
  {
    var a := SubTree(fs, root + rel);
    var b := SubTree(SubTree(fs, root), rel);
    forall k
      ensures k in a <==> k in b
      ensures k in a ==> a[k] == b[k]
    {
      var t := SubTree(fs, root);
      SubTreeAt(fs, root + rel, k);
      SubTreeAt(t, rel, k);
      SubTreeAt(fs, root, rel + k);
      assert root + rel + k == root + (rel + k);
      assert k in a <==> k != [] && root + (rel + k) in fs;
      assert k in b <==> k != [] && rel + k in t;
    }
  }

  /** In a valid tree every non-root prefix of a node is a node. */
  lemma PrefixPresent(fs: FS, p: Path, q: Path)
    requires Valid(fs) && q in fs && p <= q && p != []
    ensures p in fs
  {
    if p != q {
      var d := Dir(q);
      AncestorsOfDir(fs, d);
      assert d[..|p|] == p;
    }
  }

  /** So nothing lies below a missing path. */
  lemma NothingBelowMissing(fs: FS, p: Path)
    requires Valid(fs) && p != [] && p !in fs
    ensures forall q :: q in fs ==> !(p <= q)
  {
    forall q | q in fs
      ensures !(p <= q)
    {
      if p <= q {
        PrefixPresent(fs, p, q);
      }
    }
  }

  /**
    os.MkdirAll of root + rel below a directory root does what MkdirAll of rel
    does in root's subtree: it succeeds or fails alike and leaves the same
    subtree, with root still a directory.
   */
  lemma {:induction false} MkdirAllShift(fs: FS, root: Path, rel: Path)
    requires IsDir(fs, root)
    ensures MkdirAll(fs, root + rel).Ok? == MkdirAll(SubTree(fs, root), rel).Ok?
    ensures MkdirAll(fs, root + rel).Ok? ==>
      && SubTree(MkdirAll(fs, root + rel).value, root) == MkdirAll(SubTree(fs, root), rel).value
      && IsDir(MkdirAll(fs, root + rel).value, root)
    decreases |rel|
  {
    var t := SubTree(fs, root);
    SubTreeAt(fs, root, rel);
    SubTreeKinds(fs, root, rel);
    if rel == [] {
      assert root + rel == root;
    } else if !IsDir(fs, root + rel) && root + rel !in fs {
      assert Dir(root + rel) == root + Dir(rel);
      MkdirAllShift(fs, root, Dir(rel));
      if MkdirAll(fs, Dir(root + rel)).Ok? {
        var fs1 := MkdirAll(fs, Dir(root + rel)).value;
        SubTreeUpdate(fs1, root, rel, Directory);
        assert root + rel != root;
      }
    }
  }

  /** Likewise os.Create of root + rel, for a non-empty rel. */
  lemma CreateShift(fs: FS, root: Path, rel: Path)
    requires IsDir(fs, root) && rel != []
    ensures Create(fs, root + rel).Ok? == Create(SubTree(fs, root), rel).Ok?
    ensures Create(fs, root + rel).Ok? ==>
      && SubTree(Create(fs, root + rel).value, root) == Create(SubTree(fs, root), rel).value
      && IsDir(Create(fs, root + rel).value, root)
  {
    assert Dir(root + rel) == root + Dir(rel);
    SubTreeKinds(fs, root, Dir(rel));
    SubTreeKinds(fs, root, rel);
    SubTreeUpdate(fs, root, rel, File([]));
    assert root + rel != root;
  }

  lemma ChildAt(fs: FS, d: Path, name: string)
    ensures name in Children(fs, d) <==> d + [name] in fs
  {
    var p := d + [name];
    assert p[|d|] == name;
    if name in Children(fs, d) {
      var p' :| p' in fs && |p'| == |d| + 1 && d <= p' && p'[|d|] == name;
      assert p' == p;
    }
  }

  /** os.ReadDir of a directory root lists what the same call lists at "/" in root's subtree. */
  lemma ListingShift(fs: FS, root: Path)
    requires IsDir(fs, root)
    ensures Listing(fs, root) == Listing(SubTree(fs, root), [])
  {
    var t := SubTree(fs, root);
    forall name
      ensures name in Children(fs, root) <==> name in Children(t, [])
    {
      ChildAt(fs, root, name);
      ChildAt(t, [], name);
      SubTreeAt(fs, root, [name]);
    }
    assert Children(fs, root) == Children(t, []);
    var names := SortedNames(Children(fs, root));
    forall i | 0 <= i < |names|
      ensures IsDir(fs, root + [names[i]]) == IsDir(t, [] + [names[i]])
    {
      SubTreeKinds(fs, root, [names[i]]);
      assert [] + [names[i]] == [names[i]];
    }
  }

  /** The subtree below a directory of a valid tree is a valid tree itself. */
  lemma SubTreeValid(fs: FS, root: Path)
    requires Valid(fs) && IsDir(fs, root)
    ensures Valid(SubTree(fs, root))
  {
    var t := SubTree(fs, root);
    SubTreeAt(fs, root, []);
    forall p | p in t
      ensures IsClean(p) && IsDir(t, Dir(p))
    {
      SubTreeAt(fs, root, p);
      forall i | 0 <= i < |p|
        ensures Normal(p[i])
      {
        assert p[i] == (root + p)[|root| + i];
      }
      assert Dir(root + p) == root + Dir(p);
      SubTreeKinds(fs, root, Dir(p));
    }
  }

  /** A missing child of a directory is missing with ENOENT, not ENOTDIR. */
  lemma MissingChildErrno(fs: FS, d: Path, name: string)
    requires Valid(fs) && IsDir(fs, d)
    ensures MissingErrno(fs, d + [name]) == NoEntry
  {
    AncestorsOfDir(fs, d);
    forall k | 0 <= k < |d + [name]|
      ensures !IsFile(fs, (d + [name])[..k])
    {
      assert (d + [name])[..k] == d[..k];
    }
  }
}
