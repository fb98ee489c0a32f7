/**
  The parts of Go's path/filepath (on a system whose separator is '/') that the
  server uses, on paths held as lists of segments.

  A `Path` is a clean absolute path: the segments between the slashes, with
  `[]` standing for "/". Every directory the server creates (os.MkdirTemp under
  os.TempDir()) is absolute, so `filepath.Join(dir, name)` is
  `filepath.Clean(dir + "/" + name)`, and `Join` below computes it by walking
  the segments of `name` from `dir`:
  - an empty segment or "." is dropped;
  - ".." removes the last segment, and stays at "/" when there is none;
  - any other segment is appended.
 */
module FilePath {
  import opened Text

  type Path = seq<string>

  /** A segment a clean path can hold. */
  predicate Normal(seg: string)
  {
    seg != "" && seg != "." && seg != ".." && '/' !in seg
  }

  predicate IsClean(p: Path)
  {
    forall i :: 0 <= i < |p| ==> Normal(p[i])
  }

  /** strings.Split(s, "/"): the pieces between the slashes, empty pieces included. */
  function Split(s: string): (r: seq<string>)
    ensures |r| >= 1
    ensures forall i :: 0 <= i < |r| ==> '/' !in r[i]
    decreases |s|
  {
    if s == "" then [""]
    else
      var rest := Split(s[1..]);
      if s[0] == '/' then [""] + rest
      else [[s[0]] + rest[0]] + rest[1..]
  }

  /** strings.Join(parts, "/"). */
  function Unsplit(parts: seq<string>): string
    requires |parts| >= 1
  {
    if |parts| == 1 then parts[0] else parts[0] + "/" + Unsplit(parts[1..])
  }

  /** Splitting at the slashes loses nothing. */
  lemma {:induction false} SplitRoundTrip(s: string)
    ensures Unsplit(Split(s)) == s
    decreases |s|
  {
    if s != "" {
      var rest := Split(s[1..]);
      SplitRoundTrip(s[1..]);
      if s[0] == '/' {
        assert s == "/" + s[1..];
      } else if |rest| == 1 {
        assert s == [s[0]] + s[1..];
      } else {
        assert Unsplit(rest) == rest[0] + "/" + Unsplit(rest[1..]);
        assert s == [s[0]] + s[1..];
        assert ([[s[0]] + rest[0]] + rest[1..])[1..] == rest[1..];
      }
    }
  }

  lemma {:induction false} SplitWithoutSlash(s: string)
    requires '/' !in s
    ensures Split(s) == [s]
    decreases |s|
  {
    if s != "" {
      SplitWithoutSlash(s[1..]);
      assert s == [s[0]] + s[1..];
    }
  }

  /** filepath.Dir of a clean path: the path without its last segment ("/" stays "/"). */
  function Dir(p: Path): (r: Path)
    ensures |r| == if p == [] then 0 else |p| - 1
    ensures r <= p
  {
    if p == [] then [] else p[..|p| - 1]
  }

  /** One step of filepath.Clean: the effect of one segment on a clean prefix. */
  function Push(base: Path, seg: string): Path
  {
    if seg == "" || seg == "." then base
    else if seg == ".." then Dir(base)
    else base + [seg]
  }

  /** filepath.Clean(base + "/" + Unsplit(segs)) for a clean absolute base. */
  function Resolve(base: Path, segs: seq<string>): Path
    decreases |segs|
  {
    if segs == [] then base else Resolve(Push(base, segs[0]), segs[1..])
  }

  /** filepath.Join(dir, name) for a clean absolute dir. */
  function Join(dir: Path, name: string): Path
  {
    Resolve(dir, Split(name))
  }

  /** The result of Join is a clean path again. */
  lemma {:induction false} ResolveIsClean(base: Path, segs: seq<string>)
    requires IsClean(base)
    requires forall i :: 0 <= i < |segs| ==> '/' !in segs[i]
    ensures IsClean(Resolve(base, segs))
    decreases |segs|
  {
    if segs != [] {
      ResolveIsClean(Push(base, segs[0]), segs[1..]);
    }
  }

  lemma JoinIsClean(dir: Path, name: string)
    requires IsClean(dir)
    ensures IsClean(Join(dir, name))
  {
    ResolveIsClean(dir, Split(name));
  }

  /** Joining a single ordinary name appends it. */
  lemma JoinNormal(dir: Path, name: string)
    requires Normal(name)
    ensures Join(dir, name) == dir + [name]
  {
    SplitWithoutSlash(name);
    assert Join(dir, name) == Resolve(Push(dir, name), []);
  }

  /** A walk with no ".." segment never leaves the directory it starts under. */
  lemma {:induction false} ResolveStaysUnder(root: Path, base: Path, segs: seq<string>)
    requires root <= base
    requires ".." !in segs
    ensures root <= Resolve(base, segs)
    decreases |segs|
  {
    if segs != [] {
      assert segs[0] != ".." && ".." !in segs[1..];
      ResolveStaysUnder(root, Push(base, segs[0]), segs[1..]);
    }
  }

  /**
    The containment that Join does give: a name none of whose segments is ".."
    lands at or below dir, whatever else it holds (an absolute name such as
    "/etc/passwd" is placed under dir too).
   */
  lemma JoinStaysUnder(dir: Path, name: string)
    requires ".." !in Split(name)
    ensures dir <= Join(dir, name)
  {
    ResolveStaysUnder(dir, dir, Split(name));
  }

  /** Without "..", walking from r + b is walking from b with r in front. */
  lemma {:induction false} ResolveShift(r: Path, b: Path, segs: seq<string>)
    requires ".." !in segs
    ensures Resolve(r + b, segs) == r + Resolve(b, segs)
    decreases |segs|
  {
    if segs != [] {
      assert segs[0] != ".." && ".." !in segs[1..];
      assert Push(r + b, segs[0]) == r + Push(b, segs[0]) by {
        if segs[0] != "" && segs[0] != "." {
          assert r + b + [segs[0]] == r + (b + [segs[0]]);
        }
      }
      ResolveShift(r, Push(b, segs[0]), segs[1..]);
    }
  }

  /** So a name without ".." lands at the same relative path under whatever directory it is joined to. */
  lemma JoinShift(dir: Path, name: string)
    requires ".." !in Split(name)
    ensures Join(dir, name) == dir + Join([], name)
  {
    ResolveShift(dir, [], Split(name));
    assert dir + [] == dir;
  }

  /** And the containment it does not give: one ".." segment already escapes. */
  lemma JoinEscapes(dir: Path)
    requires dir != [] && dir[|dir| - 1] != "evil"
    ensures Join(dir, "../evil") == Dir(dir) + ["evil"]
    ensures !(dir <= Join(dir, "../evil"))
  {
    var parts := Split("../evil");
    assert Split("evil") == ["evil"] by {
      SplitWithoutSlash("evil");
    }
    assert "/evil"[1..] == "evil";
    assert Split("/evil") == ["", "evil"];
    assert "./evil"[1..] == "/evil" && "./evil"[0] == '.' && ['.'] + "" == ".";
    assert Split("./evil") == [".", "evil"];
    assert "../evil"[1..] == "./evil" && "../evil"[0] == '.' && ['.'] + "." == "..";
    assert parts == ["..", "evil"];
    assert Join(dir, "../evil") == Resolve(Dir(dir), ["evil"]);
    assert Resolve(Dir(dir), ["evil"]) == Resolve(Dir(dir) + ["evil"], []);
    var j := Dir(dir) + ["evil"];
    assert |j| == |dir| && j[|dir| - 1] != dir[|dir| - 1];
  }

  /** The path with its trailing slashes removed. */
  function TrimTrailingSlashes(s: string): (r: string)
    ensures r <= s
    ensures r == [] || r[|r| - 1] != '/'
    decreases |s|
  {
    if |s| > 0 && s[|s| - 1] == '/' then TrimTrailingSlashes(s[..|s| - 1]) else s
  }

  /** What follows the last slash of s (all of s when it has none). */
  function AfterLastSlash(s: string): (r: string)
    ensures '/' !in r
    ensures s != [] && s[|s| - 1] != '/' ==> r != []
    decreases |s|
  {
    if s == "" || s[|s| - 1] == '/' then "" else AfterLastSlash(s[..|s| - 1]) + [s[|s| - 1]]
  }

  /** filepath.Base: the last element, "." for "", "/" for a path of only slashes. */
  function Base(path: string): string
  {
    if path == "" then "."
    else
      var t := TrimTrailingSlashes(path);
      if t == "" then "/" else AfterLastSlash(t)
  }

  lemma {:induction false} AfterLastSlashKeepsSuffix(s: string, v: string)
    requires HasSuffix(s, v) && '/' !in v
    ensures HasSuffix(AfterLastSlash(s), v)
    decreases |v|
  {
    if v != [] {
      var s', v' := s[..|s| - 1], v[..|v| - 1];
      var c := v[|v| - 1];
      assert s[|s| - 1] == c && c != '/';
      assert HasSuffix(s', v') by {
        assert s'[|s'| - |v'|..] == s[|s| - |v|..][..|v'|];
      }
      AfterLastSlashKeepsSuffix(s', v');
      var x := AfterLastSlash(s');
      assert AfterLastSlash(s) == x + [c];
      assert (x + [c])[|x| + 1 - |v|..] == x[|x| - |v'|..] + [c];
      assert v == v' + [c];
    }
  }

  /**
    The base name of a URL that passed the ".tgz" check is an ordinary file
    name ending in ".tgz", so the download lands directly inside its directory.
   */
  lemma BaseOfArchiveUrl(url: string)
    requires HasSuffix(url, ".tgz")
    ensures Normal(Base(url)) && HasSuffix(Base(url), ".tgz")
  {
    assert url[|url| - 1] == 'z';
    assert TrimTrailingSlashes(url) == url;
    AfterLastSlashKeepsSuffix(url, ".tgz");
  }

  /** The text of a path, for error messages. */
  function PathString(p: Path): string
  {
    if p == [] then "/" else Segments(p)
  }

  function Segments(p: Path): string
  {
    if p == [] then "" else "/" + p[0] + Segments(p[1..])
  }

  /** A prefix of a non-empty path is the path itself or a prefix of its parent. */
  lemma PrefixOfParent(p: Path, q: Path)
    requires p != []
    ensures q <= p <==> q <= Dir(p) || q == p
  {
    if q <= p && q != p {
      assert |q| < |p|;
      assert q == p[..|q|];
      assert Dir(p) == p[..|p| - 1];
    }
  }
}
