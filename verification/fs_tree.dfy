/**
  The directory tree of tasks/tree/NTree/filesystem/fs.cpp. A directory is
  named by its path of names from the root (the root is `[]`); the tree is
  the set of directory paths, closed under taking the parent, so a node's
  `parent_` is its path without the last name and the root is its own
  parent. Files are recorded by path only: their content is not modelled.
  The current directory is one of the paths.

  Every member that can throw `FileNotFoundException` returns an `Err`; the
  caller keeps the tree it had.
 */
module FsTree {
  import opened Common
  import opened FsPath
  import opened StrOrder
  import opened Merging

  type Path = seq<string>

  datatype Fs = Fs(dirs: set<Path>, files: set<Path>, cwd: Path)

  /** `FileNotFoundException`, for a missing name, or for a name that is a
      file where a directory was needed (the "Not a directory" message). */
  datatype FsError = NoSuchEntry(name: string) | NotADirectory(name: string)

  /** A directory's `parent_`: its path without the last name. */
  function Parent(p: Path): Path
    requires p != []
  {
    p[..|p| - 1]
  }

  /** Where `..` leads: the parent, except at the root. */
  function Up(p: Path): Path {
    if p == [] then [] else Parent(p)
  }

  /** The root is present, every other directory's parent is present, and
      every name is a piece `Split` can produce. */
  predicate Tree(dirs: set<Path>) {
    [] in dirs
    && forall p {:trigger Parent(p)} :: p in dirs && p != [] ==> Parent(p) in dirs && Piece(p[|p| - 1], Separators)
  }

  /** The current directory is reached only by walks, which never enter a
      `.` or `..` child, so its path holds no such name. */
  predicate Valid(fs: Fs) {
    Tree(fs.dirs) && fs.cwd in fs.dirs && NoDots(fs.cwd)
    && forall f :: f in fs.files ==> f != [] && f[..|f| - 1] in fs.dirs
  }

  /** The tree after `EnsureInit`: an empty root that is also the current directory. */
  function Init(): (r: Fs)
    ensures Valid(r) && r.dirs == {[]} && r.cwd == []
  {
    Fs({[]}, {}, [])
  }

  /** Names with a meaning of their own in a walk. */
  predicate Special(n: string) {
    n == "." || n == ".."
  }

  predicate NoDots(ps: Path) {
    forall k :: 0 <= k < |ps| ==> !Special(ps[k])
  }

  /** Every prefix of a directory is a directory. */
  lemma {:induction false} PrefixIn(dirs: set<Path>, p: Path, k: nat)
    requires Tree(dirs) && p in dirs && k <= |p|
    ensures p[..k] in dirs
    decreases |p| - k
  {
    if k < |p| {
      var q := Parent(p);
      PrefixIn(dirs, q, k);
      assert q[..k] == p[..k];
    } else {
      assert p[..k] == p;
    }
  }

  /** The names of a directory's path are all pieces `Split` can produce. */
  lemma {:induction false} NamesArePieces(dirs: set<Path>, p: Path)
    requires Tree(dirs) && p in dirs
    ensures Pieces(p, Separators)
    decreases |p|
  {
    if p != [] {
      var q := Parent(p);
      NamesArePieces(dirs, q);
      assert forall k :: 0 <= k < |q| ==> p[k] == q[k];
    }
  }

  lemma AddChild(dirs: set<Path>, cur: Path, p: string)
    requires Tree(dirs) && cur in dirs && Piece(p, Separators)
    ensures Tree(dirs + {cur + [p]})
  {
    var x := cur + [p];
    assert Parent(x) == cur;
    forall q | q in dirs + {x} && q != []
      ensures Parent(q) in dirs + {x} && Piece(q[|q| - 1], Separators)
    {
      if q == x {
        assert Parent(q) == cur && q[|q| - 1] == p;
      }
    }
  }

  // ---------------------------------------------------------------------
  // Walking

  /** The walk of `ResolveDirConst` and `ChangeDir`: `.` stays, `..` goes
      up, a subdirectory is entered; a missing name throws, with the "Not a
      directory" message when a file has that name. */
  function Walk(fs: Fs, cur: Path, parts: seq<string>): (r: Result<Path, FsError>)
    requires Valid(fs) && cur in fs.dirs
    ensures r.Ok? ==> r.value in fs.dirs
    ensures r.Ok? && NoDots(cur) ==> NoDots(r.value)
    ensures r.Err? ==> r.error.name in parts
    decreases |parts|
  {
    if parts == [] then Ok(cur)
    else
      var p := parts[0];
      if p == "." then Walk(fs, cur, parts[1..])
      else if p == ".." then Walk(fs, Up(cur), parts[1..])
      else if cur + [p] in fs.dirs then Walk(fs, cur + [p], parts[1..])
      else if cur + [p] in fs.files then Err(NotADirectory(p))
      else Err(NoSuchEntry(p))
  }

  /** `WalkTo(start, parts, allow_create, create_parents)`: the same walk,
      except that a missing name is created when both flags are set, or
      when `allow_create` is set and it is the last name; otherwise it
      throws. The result is the grown tree and the directory reached. */
  function WalkTo(dirs: set<Path>, cur: Path, parts: seq<string>, allowCreate: bool, createParents: bool)
    : (r: Result<(set<Path>, Path), FsError>)
    requires Tree(dirs) && cur in dirs && Pieces(parts, Separators)
    ensures r.Ok? ==> Tree(r.value.0) && dirs <= r.value.0 && r.value.1 in r.value.0
    ensures r.Ok? && !allowCreate ==> r.value.0 == dirs
    ensures allowCreate && createParents ==> r.Ok?
    ensures r.Err? ==> r.error.NoSuchEntry? && r.error.name in parts
    decreases |parts|
  {
    if parts == [] then Ok((dirs, cur))
    else
      var p, rest := parts[0], parts[1..];
      if p == "." then WalkTo(dirs, cur, rest, allowCreate, createParents)
      else if p == ".." then WalkTo(dirs, Up(cur), rest, allowCreate, createParents)
      else if cur + [p] in dirs then WalkTo(dirs, cur + [p], rest, allowCreate, createParents)
      else if allowCreate && createParents then
        AddChild(dirs, cur, p);
        WalkTo(dirs + {cur + [p]}, cur + [p], rest, allowCreate, createParents)
      else if allowCreate && rest == [] then
        AddChild(dirs, cur, p);
        Ok((dirs + {cur + [p]}, cur + [p]))
      else Err(NoSuchEntry(p))
  }

  /** `.` components can be dropped from a walk without changing where it ends. */
  function DropDots(ps: seq<string>): (r: seq<string>)
    ensures forall k :: 0 <= k < |r| ==> r[k] != "."
  {
    if ps == [] then [] else (if ps[0] == "." then [] else [ps[0]]) + DropDots(ps[1..])
  }

  lemma {:induction false} WalkIgnoresDot(fs: Fs, cur: Path, ps: seq<string>)
    requires Valid(fs) && cur in fs.dirs
    ensures Walk(fs, cur, ps) == Walk(fs, cur, DropDots(ps))
    decreases |ps|
  {
    if ps != [] {
      var p := ps[0];
      var d := DropDots(ps[1..]);
      if p == "." {
        WalkIgnoresDot(fs, cur, ps[1..]);
        assert DropDots(ps) == [] + d && [] + d == d;
      } else {
        assert DropDots(ps) == [p] + d;
        assert ([p] + d)[1..] == d;
        if p == ".." {
          WalkIgnoresDot(fs, Up(cur), ps[1..]);
        } else if cur + [p] in fs.dirs {
          WalkIgnoresDot(fs, cur + [p], ps[1..]);
        }
      }
    }
  }

  /** `..` undoes entering a subdirectory, and at the root it stays put. */
  lemma DotDot(fs: Fs, cur: Path, n: string, ps: seq<string>)
    requires Valid(fs) && cur in fs.dirs && !Special(n) && cur + [n] in fs.dirs
    ensures Walk(fs, cur, [n, ".."] + ps) == Walk(fs, cur, ps)
    ensures Walk(fs, [], [".."] + ps) == Walk(fs, [], ps)
  {
    assert ([n, ".."] + ps)[1..] == [".."] + ps;
    assert ([".."] + ps)[1..] == ps;
    assert Up(cur + [n]) == cur;
  }

  /** Walking down names that exist lands on their path. */
  lemma {:induction false} WalkAlong(fs: Fs, cur: Path, q: Path, ps: seq<string>)
    requires Valid(fs) && cur in fs.dirs && cur + q in fs.dirs && NoDots(q)
    ensures Walk(fs, cur, q + ps) == Walk(fs, cur + q, ps)
    decreases |q|
  {
    if q == [] {
      assert q + ps == ps && cur + q == cur;
    } else {
      var next := cur + [q[0]];
      PrefixIn(fs.dirs, cur + q, |cur| + 1);
      assert (cur + q)[..|cur| + 1] == next;
      assert (q + ps)[0] == q[0] && (q + ps)[1..] == q[1..] + ps;
      assert next + q[1..] == cur + q;
      WalkAlong(fs, next, q[1..], ps);
    }
  }

  /** Without creation, `WalkTo` follows exactly `Walk`, except that every
      missing name is reported without the "Not a directory" distinction. */
  lemma {:induction false} WalkToWithoutCreate(fs: Fs, cur: Path, ps: seq<string>)
    requires Valid(fs) && cur in fs.dirs && Pieces(ps, Separators)
    ensures WalkTo(fs.dirs, cur, ps, false, false) ==
      match Walk(fs, cur, ps)
      case Ok(d) => Ok((fs.dirs, d))
      case Err(e) => Err(NoSuchEntry(e.name))
    decreases |ps|
  {
    if ps != [] {
      var p := ps[0];
      if p == "." {
        WalkToWithoutCreate(fs, cur, ps[1..]);
      } else if p == ".." {
        WalkToWithoutCreate(fs, Up(cur), ps[1..]);
      } else if cur + [p] in fs.dirs {
        WalkToWithoutCreate(fs, cur + [p], ps[1..]);
      }
    }
  }

  /** Along names that all exist, `WalkTo` creates nothing, whatever its flags. */
  lemma {:induction false} WalkToExisting(dirs: set<Path>, cur: Path, q: Path, allowCreate: bool, createParents: bool)
    requires Tree(dirs) && cur in dirs && cur + q in dirs && NoDots(q) && Pieces(q, Separators)
    ensures WalkTo(dirs, cur, q, allowCreate, createParents) == Ok((dirs, cur + q))
    decreases |q|
  {
    if q == [] {
      assert cur + q == cur;
    } else {
      var next := cur + [q[0]];
      PrefixIn(dirs, cur + q, |cur| + 1);
      assert (cur + q)[..|cur| + 1] == next;
      assert next + q[1..] == cur + q;
      WalkToExisting(dirs, next, q[1..], allowCreate, createParents);
    }
  }

  /** Without creation, a walk down plain names succeeds exactly when the
      whole path exists. */
  lemma {:induction false} WalkToPlain(dirs: set<Path>, cur: Path, q: Path)
    requires Tree(dirs) && cur in dirs && NoDots(q) && Pieces(q, Separators)
    ensures WalkTo(dirs, cur, q, false, false).Ok? <==> cur + q in dirs
    decreases |q|
  {
    if q == [] {
      assert cur + q == cur;
    } else if cur + q in dirs {
      WalkToExisting(dirs, cur, q, false, false);
    } else {
      var next := cur + [q[0]];
      assert next + q[1..] == cur + q;
      assert !Special(q[0]);
      assert WalkTo(dirs, cur, q, false, false) ==
        if next in dirs then WalkTo(dirs, next, q[1..], false, false) else Err(NoSuchEntry(q[0]));
      if next in dirs {
        WalkToPlain(dirs, next, q[1..]);
      }
    }
  }

  /** The directories `cur + ps[..1]`, ..., `cur + ps`. */
  function Prefixes(cur: Path, ps: Path): set<Path> {
    set k | 1 <= k <= |ps| :: cur + ps[..k]
  }

  /** With `create_parents`, a walk down plain names creates every missing
      directory on the way and nothing else. */
  lemma {:induction false} WalkToCreatesAll(dirs: set<Path>, cur: Path, ps: Path)
    requires Tree(dirs) && cur in dirs && NoDots(ps) && Pieces(ps, Separators)
    ensures WalkTo(dirs, cur, ps, true, true) == Ok((dirs + Prefixes(cur, ps), cur + ps))
    decreases |ps|
  {
    if ps == [] {
      assert Prefixes(cur, ps) == {};
      assert cur + ps == cur && dirs + {} == dirs;
    } else {
      var next := cur + [ps[0]];
      var rest := ps[1..];
      var grown := dirs + {next};
      AddChild(dirs, cur, ps[0]);
      WalkToCreatesAll(grown, next, rest);
      assert WalkTo(dirs, cur, ps, true, true) == WalkTo(grown, next, rest, true, true) by {
        if next in dirs {
          assert grown == dirs;
        }
      }
      assert next + rest == cur + ps;
      PrefixesStep(cur, ps);
      assert grown + Prefixes(next, rest) == dirs + Prefixes(cur, ps);
    }
  }

  /** The prefixes below `cur` are the first step and the prefixes below it. */
  lemma PrefixesStep(cur: Path, ps: Path)
    requires ps != []
    ensures Prefixes(cur, ps) == {cur + [ps[0]]} + Prefixes(cur + [ps[0]], ps[1..])
  {
    var next, rest := cur + [ps[0]], ps[1..];
    forall x | x in Prefixes(cur, ps)
      ensures x in {next} + Prefixes(next, rest)
    {
      var k :| 1 <= k <= |ps| && x == cur + ps[..k];
      if k == 1 {
        assert ps[..1] == [ps[0]];
      } else {
        assert ps[..k] == [ps[0]] + rest[..k - 1];
        assert x == next + rest[..k - 1];
      }
    }
    forall x | x in Prefixes(next, rest)
      ensures x in Prefixes(cur, ps)
    {
      var k :| 1 <= k <= |rest| && x == next + rest[..k];
      assert rest[..k] == ps[1..k + 1];
      assert ps[..k + 1] == [ps[0]] + ps[1..k + 1];
      assert x == cur + ps[..k + 1];
    }
    assert next == cur + ps[..1];
  }

  /** With `allow_create` alone, only a missing last name is created: the
      walk to the parent must succeed without creating anything. */
  lemma {:induction false} WalkToCreatesLast(dirs: set<Path>, cur: Path, ps: seq<string>)
    requires Tree(dirs) && cur in dirs && Pieces(ps, Separators)
    requires ps != [] && !Special(ps[|ps| - 1])
    ensures WalkTo(dirs, cur, ps, true, false) ==
      match WalkTo(dirs, cur, ps[..|ps| - 1], false, false)
      case Ok((_, q)) => Ok((dirs + {q + [ps[|ps| - 1]]}, q + [ps[|ps| - 1]]))
      case Err(e) => Err(e)
    decreases |ps|
  {
    var last := ps[|ps| - 1];
    if |ps| == 1 {
      assert ps == [last] && ps[..0] == [];
      if cur + [last] in dirs {
        assert dirs + {cur + [last]} == dirs;
      }
    } else {
      var p, rest := ps[0], ps[1..];
      assert ps[..|ps| - 1] == [p] + rest[..|rest| - 1];
      assert ([p] + rest[..|rest| - 1])[1..] == rest[..|rest| - 1];
      assert rest[|rest| - 1] == last;
      if p == "." {
        WalkToCreatesLast(dirs, cur, rest);
      } else if p == ".." {
        WalkToCreatesLast(dirs, Up(cur), rest);
      } else if cur + [p] in dirs {
        WalkToCreatesLast(dirs, cur + [p], rest);
      }
    }
  }

  // ---------------------------------------------------------------------
  // Resolution

  /** The directory a non-trivial path starts from: the root for `/...`,
      the current directory otherwise. */
  function Start(fs: Fs, path: string): Path {
    if path != "" && path[0] == '/' then [] else fs.cwd
  }

  /** `ResolveDir`: the current directory for `""` and `"."`, otherwise
      `WalkTo` from the root or the current directory. */
  function ResolveDir(fs: Fs, path: string, allowCreate: bool, createParents: bool)
    : (r: Result<(Fs, Path), FsError>)
    requires Valid(fs)
    ensures path == "" || path == "." ==> r == Ok((fs, fs.cwd))
    ensures r.Ok? ==>
      Valid(r.value.0) && r.value.1 in r.value.0.dirs && fs.dirs <= r.value.0.dirs
      && r.value.0.cwd == fs.cwd && r.value.0.files == fs.files
    ensures r.Ok? && !allowCreate ==> r.value.0 == fs
  {
    if path == "" || path == "." then Ok((fs, fs.cwd))
    else
      match WalkTo(fs.dirs, Start(fs, path), Split(path, Separators), allowCreate, createParents)
      case Ok((dirs, d)) => Ok((fs.(dirs := dirs), d))
      case Err(e) => Err(e)
  }

  /** `ResolveDirConst`: the same resolution without creation. */
  function ResolveDirConst(fs: Fs, path: string): (r: Result<Path, FsError>)
    requires Valid(fs)
    ensures path == "" || path == "." ==> r == Ok(fs.cwd)
    ensures r.Ok? ==> r.value in fs.dirs && NoDots(r.value)
  {
    if path == "" || path == "." then Ok(fs.cwd)
    else Walk(fs, Start(fs, path), Split(path, Separators))
  }

  /** `ResolveDir` without creation agrees with `ResolveDirConst`, apart
      from the message for a name that is a file. */
  lemma ResolveDirWithoutCreate(fs: Fs, path: string)
    requires Valid(fs)
    ensures ResolveDir(fs, path, false, false) ==
      match ResolveDirConst(fs, path)
      case Ok(d) => Ok((fs, d))
      case Err(e) => Err(NoSuchEntry(e.name))
  {
    if !(path == "" || path == ".") {
      WalkToWithoutCreate(fs, Start(fs, path), Split(path, Separators));
    }
  }

  /** The walk reads the tree, never the current directory. */
  lemma {:induction false} WalkIgnoresCwd(fs: Fs, c: Path, cur: Path, ps: seq<string>)
    requires Valid(fs) && Valid(fs.(cwd := c)) && cur in fs.dirs
    ensures Walk(fs, cur, ps) == Walk(fs.(cwd := c), cur, ps)
    decreases |ps|
  {
    if ps != [] {
      var p := ps[0];
      if p == "." {
        WalkIgnoresCwd(fs, c, cur, ps[1..]);
      } else if p == ".." {
        WalkIgnoresCwd(fs, c, Up(cur), ps[1..]);
      } else if cur + [p] in fs.dirs {
        WalkIgnoresCwd(fs, c, cur + [p], ps[1..]);
      }
    }
  }

  /** An absolute path resolves to the same directory wherever one stands. */
  lemma AbsoluteIgnoresCwd(fs: Fs, c: Path, path: string)
    requires Valid(fs) && Valid(fs.(cwd := c)) && path != "" && path[0] == '/'
    ensures ResolveDirConst(fs, path) == ResolveDirConst(fs.(cwd := c), path)
  {
    if path != "." {
      WalkIgnoresCwd(fs, c, [], Split(path, Separators));
    }
  }

  /** A relative path resolves as the absolute path of the current
      directory followed by `/` and the relative path, as long as no name
      on the current directory's path is `.` or `..`. */
  lemma RelativeIsCwdJoined(fs: Fs, path: string)
    requires Valid(fs) && (path == "" || path[0] != '/')
    ensures ResolveDirConst(fs, path) == ResolveDirConst(fs, JoinPath(fs.cwd) + "/" + path)
  {
    var full := JoinPath(fs.cwd) + "/" + path;
    var ps := Split(path, Separators);
    assert Split(full, Separators) == fs.cwd + ps by {
      NamesArePieces(fs.dirs, fs.cwd);
      SplitAtSlash(JoinPath(fs.cwd), path);
      SplitJoinPath(fs.cwd);
    }
    assert ResolveDirConst(fs, full) == Walk(fs, [], fs.cwd + ps) by {
      assert full[0] == '/' && full != ".";
    }
    assert Walk(fs, [], fs.cwd + ps) == Walk(fs, fs.cwd, ps) by {
      assert [] + fs.cwd == fs.cwd;
      WalkAlong(fs, [], fs.cwd, ps);
    }
    if path == "" {
      assert Split("", Separators) == [];
    } else if path == "." {
      SplitDot();
      assert Walk(fs, fs.cwd, ["."]) == Ok(fs.cwd);
    } else {
      assert Start(fs, path) == fs.cwd;
    }
  }

  // ---------------------------------------------------------------------
  // The current directory

  /** `ChangeDir`: `/` goes to the root, `""` and `"."` stay, anything else
      is walked; a failed walk throws and leaves the current directory. */
  function ChangeDir(fs: Fs, path: string): (r: Result<Fs, FsError>)
    requires Valid(fs)
    ensures r.Ok? ==> Valid(r.value) && r.value.dirs == fs.dirs && r.value.files == fs.files
    ensures path == "/" ==> r == Ok(fs.(cwd := []))
    ensures path == "" || path == "." ==> r == Ok(fs)
  {
    if path == "/" then Ok(fs.(cwd := []))
    else if path == "" || path == "." then Ok(fs)
    else
      match Walk(fs, Start(fs, path), Split(path, Separators))
      case Ok(d) => Ok(fs.(cwd := d))
      case Err(e) => Err(e)
  }

  /** `ChangeDir` moves to the directory `ResolveDirConst` finds, or throws what it throws. */
  lemma ChangeDirResolves(fs: Fs, path: string)
    requires Valid(fs)
    ensures ChangeDir(fs, path) ==
      match ResolveDirConst(fs, path)
      case Ok(d) => Ok(fs.(cwd := d))
      case Err(e) => Err(e)
  {
    if path == "/" {
      assert SplitFrom("/", Separators, []) == [] + SplitFrom([], Separators, []);
    }
  }

  /** The names on the parent chain of `p`, nearest first, skipping the
      root's empty name: the loop of `BuildCwd`. */
  function Chunks(p: Path): seq<string>
    decreases |p|
  {
    if p == [] then []
    else (if p[|p| - 1] != "" then [p[|p| - 1]] else []) + Chunks(p[..|p| - 1])
  }

  lemma {:induction false} ChunksReversed(p: Path)
    requires Pieces(p, Separators)
    ensures Chunks(p) == Reverse(p)
    decreases |p|
  {
    if p != [] {
      var q, n := p[..|p| - 1], p[|p| - 1];
      assert Pieces(q, Separators) by {
        assert forall k :: 0 <= k < |q| ==> q[k] == p[k];
      }
      ChunksReversed(q);
      ReverseOfConcat(q, n, []);
      assert q + [n] + [] == p;
    }
  }

  /** `BuildCwd`: the names from the root down, joined by `JoinPath`. */
  function BuildCwd(fs: Fs): (r: string)
    requires Valid(fs)
    ensures r == JoinPath(fs.cwd)
    ensures r == "/" <==> fs.cwd == []
  {
    NamesArePieces(fs.dirs, fs.cwd);
    ChunksReversed(fs.cwd);
    ReverseReverse(fs.cwd);
    FlattenLength(fs.cwd, Separators);
    JoinPath(Reverse(Chunks(fs.cwd)))
  }

  /** Changing to the printed working directory stays where one is, as long
      as no name on the way is `.` or `..`. */
  lemma ChangeDirToCwd(fs: Fs)
    requires Valid(fs)
    ensures ChangeDir(fs, BuildCwd(fs)) == Ok(fs)
  {
    if fs.cwd != [] {
      NamesArePieces(fs.dirs, fs.cwd);
      SplitJoinPath(fs.cwd);
      assert [] + fs.cwd == fs.cwd && fs.cwd + [] == fs.cwd;
      WalkAlong(fs, [], fs.cwd, []);
      assert BuildCwd(fs)[0] == '/' && BuildCwd(fs) != "" && BuildCwd(fs) != ".";
    }
  }

  // ---------------------------------------------------------------------
  // Creating directories

  /** `MakeDir(path, -p)`: nothing for `/`, `""`, `"."` or a path of
      separators only. With `-p` every missing directory is created.
      Without it, a single name is created under the start directory if
      absent; a longer path is walked to its parent without creation (which
      throws if it is missing) and the last name created there if absent. */
  function MakeDir(fs: Fs, path: string, createParents: bool): (r: Result<Fs, FsError>)
    requires Valid(fs)
    ensures r.Ok? ==>
      Valid(r.value) && fs.dirs <= r.value.dirs && r.value.cwd == fs.cwd && r.value.files == fs.files
    ensures createParents ==> r.Ok?
  {
    if path == "/" || path == "" || path == "." then Ok(fs)
    else
      var parts := Split(path, Separators);
      if parts == [] then Ok(fs)
      else
        var base := Start(fs, path);
        if createParents then
          Ok(fs.(dirs := WalkTo(fs.dirs, base, parts, true, true).value.0))
        else if |parts| == 1 then
          AddChild(fs.dirs, base, parts[0]);
          Ok(fs.(dirs := fs.dirs + {base + [parts[0]]}))
        else
          match WalkTo(fs.dirs, base, parts[..|parts| - 1], false, false)
          case Err(e) => Err(e)
          case Ok((_, pdir)) =>
            AddChild(fs.dirs, pdir, parts[|parts| - 1]);
            Ok(fs.(dirs := fs.dirs + {pdir + [parts[|parts| - 1]]}))
  }

  /** `MakeDir` of a directory that already exists changes nothing. */
  lemma MakeDirExisting(fs: Fs, path: string, createParents: bool)
    requires Valid(fs) && path != ""
    requires NoDots(Split(path, Separators))
    requires Start(fs, path) + Split(path, Separators) in fs.dirs
    ensures MakeDir(fs, path, createParents) == Ok(fs)
  {
    var parts := Split(path, Separators);
    var base := Start(fs, path);
    if !(path == "/" || path == "." || parts == []) {
      if createParents {
        WalkToExisting(fs.dirs, base, parts, true, true);
      } else if |parts| == 1 {
        assert parts == [parts[0]];
        assert fs.dirs + {base + [parts[0]]} == fs.dirs;
      } else {
        var init := parts[..|parts| - 1];
        assert base + parts == (base + init) + [parts[|parts| - 1]];
        PrefixIn(fs.dirs, base + parts, |base + init|);
        assert (base + parts)[..|base + init|] == base + init;
        WalkToExisting(fs.dirs, base, init, false, false);
        assert fs.dirs + {base + parts} == fs.dirs;
      }
    }
  }

  /** Without `-p`, a missing intermediate directory throws. */
  lemma MakeDirMissingParent(fs: Fs, path: string)
    requires Valid(fs) && path != ""
    requires NoDots(Split(path, Separators)) && |Split(path, Separators)| >= 2
    requires Start(fs, path) + Split(path, Separators)[..|Split(path, Separators)| - 1] !in fs.dirs
    ensures MakeDir(fs, path, false).Err?
  {
    var parts := Split(path, Separators);
    SplitSlash();
    SplitDot();
    WalkToPlain(fs.dirs, Start(fs, path), parts[..|parts| - 1]);
  }

  /** With `-p`, exactly the directories along the path are added. */
  lemma MakeDirCreatesAll(fs: Fs, path: string)
    requires Valid(fs) && path != "" && path != "/" && path != "."
    requires NoDots(Split(path, Separators))
    ensures MakeDir(fs, path, true)
      == Ok(fs.(dirs := fs.dirs + Prefixes(Start(fs, path), Split(path, Separators))))
  {
    var parts := Split(path, Separators);
    if parts == [] {
      assert Prefixes(Start(fs, path), parts) == {};
      assert fs.dirs + {} == fs.dirs;
    } else {
      WalkToCreatesAll(fs.dirs, Start(fs, path), parts);
    }
  }

  lemma SplitSlash()
    ensures Split("/", Separators) == []
  {
    assert "/"[1..] == [];
    assert SplitFrom("/", Separators, []) == [] + SplitFrom([], Separators, []);
  }

  lemma SplitDot()
    ensures Split(".", Separators) == ["."]
  {
    assert "."[1..] == [] && [] + ['.'] == ".";
    assert SplitFrom(".", Separators, []) == SplitFrom([], Separators, ".");
  }

  /** `mkdir ..` creates a directory literally named `..`: the single-name
      branch does not treat `.` and `..` specially. */
  lemma MakeDirDotDot()
    ensures MakeDir(Init(), "..", false) == Ok(Fs({[], [".."]}, {}, []))
  {
    assert ".."[1..] == "." && [] + ['.'] == "." && "."[1..] == [] && "." + ['.'] == "..";
    assert SplitFrom("..", Separators, []) == SplitFrom(".", Separators, ".");
    assert SplitFrom(".", Separators, ".") == SplitFrom([], Separators, "..");
    assert Split("..", Separators) == [".."];
    assert [] + [".."] == [".."];
    assert {[]} + {[".."]} == {[], [".."]};
  }

  /** `ParentForPath`: the directory that holds the path's last name, and
      that name. A path with no names yields the current directory and
      leaves `last` as the caller set it (empty here). */
  function ParentForPath(fs: Fs, path: string): (r: Result<(Path, string), FsError>)
    requires Valid(fs)
    ensures r.Ok? ==> r.value.0 in fs.dirs
    ensures Split(path, Separators) == [] ==> r == Ok((fs.cwd, ""))
    ensures r.Ok? && Split(path, Separators) != [] ==> Piece(r.value.1, Separators)
  {
    var parts := Split(path, Separators);
    if parts == [] then Ok((fs.cwd, ""))
    else
      match WalkTo(fs.dirs, Start(fs, path), parts[..|parts| - 1], false, false)
      case Ok((_, d)) => Ok((d, parts[|parts| - 1]))
      case Err(e) => Err(e)
  }

  /** For plain names, `ParentForPath` finds the parent exactly when it
      exists, and parent plus name is the whole path. */
  lemma ParentForPathPlain(fs: Fs, path: string)
    requires Valid(fs) && NoDots(Split(path, Separators)) && Split(path, Separators) != []
    ensures var ps := Split(path, Separators);
      ParentForPath(fs, path).Ok? <==> Start(fs, path) + ps[..|ps| - 1] in fs.dirs
    ensures var r := ParentForPath(fs, path);
      r.Ok? ==> r.value.0 + [r.value.1] == Start(fs, path) + Split(path, Separators)
  {
    var ps := Split(path, Separators);
    var init := ps[..|ps| - 1];
    var base := Start(fs, path);
    WalkToPlain(fs.dirs, base, init);
    if base + init in fs.dirs {
      WalkToExisting(fs.dirs, base, init, false, false);
      assert base + init + [ps[|ps| - 1]] == base + ps;
    }
  }

  /** Without `-p`, `MakeDir` adds the directory `ParentForPath` names. */
  lemma MakeDirUsesParent(fs: Fs, path: string)
    requires Valid(fs) && path != "/" && path != "" && path != "."
    requires Split(path, Separators) != []
    ensures MakeDir(fs, path, false) ==
      match ParentForPath(fs, path)
      case Ok((d, n)) => Ok(fs.(dirs := fs.dirs + {d + [n]}))
      case Err(e) => Err(e)
  {
    var ps := Split(path, Separators);
    if |ps| == 1 {
      assert ps[..0] == [];
    }
  }

  // ---------------------------------------------------------------------
  // Listing

  /** The names of the subdirectories of `d`. */
  function ChildNames(fs: Fs, d: Path): set<string> {
    set p | p in fs.dirs && |p| == |d| + 1 && p[..|d|] == d :: p[|d|]
  }

  /** The names of the files in `d`. */
  function FileNames(fs: Fs, d: Path): set<string> {
    set p | p in fs.files && |p| == |d| + 1 && p[..|d|] == d :: p[|d|]
  }

  /** `ListFiles(path)`: the subdirectory and file names of the directory
      `path` resolves to, each list ascending, merged into one ascending
      listing (returned, where the source prints one name per line). */
  method ListFiles(fs: Fs, path: string) returns (r: Result<seq<string>, FsError>)
    requires Valid(fs)
    ensures r.Err? <==> ResolveDirConst(fs, path).Err?
    ensures r.Err? ==> r.error == ResolveDirConst(fs, path).error
    ensures r.Ok? ==>
      var d := ResolveDirConst(fs, path).value;
      NonDescending(r.value)
      && multiset(r.value) == multiset(ChildNames(fs, d)) + multiset(FileNames(fs, d))
  {
    var found := if path == "." || path == "" then Ok(fs.cwd) else ResolveDirConst(fs, path);
    if found.Err? {
      return Err(found.error);
    }
    var cd := SortedNames(ChildNames(fs, found.value));
    var cf := SortedNames(FileNames(fs, found.value));
    var out := Merge(cd, cf);
    r := Ok(out);
  }
}
