/** The backup itself (`BackupManager`): every source directory is copied,
    files and subdirectories recursively, into a directory of the same
    short name below the backup directory; files there are replaced, and
    nothing the source lacks is removed.

    The copy is specified by `Overlay`, which lays one tree over another,
    and the lemmas below say what it does to every file and directory of
    the destination. */
module Backup {
  import opened Wrappers
  import opened Primitives
  import opened Text
  import opened Mocks

  /** `d` with the tree `s` laid over it: the files of `s` replace files of
      the same name, the directories of both are merged, and everything
      else of `d` stays. */
  function Overlay(d: MockDirectory, s: MockDirectory): MockDirectory
    decreases s
  {
    MockDirectory(
      d.files + s.files,
      map k | k in d.directories.Keys + s.directories.Keys ::
        if k in s.directories then Overlay(ChildOrEmpty(d, k), s.directories[k]) else d.directories[k])
  }

  /** `t` with `s` laid over the directory at `p`, which is created (with
      the missing directories on the way) when it is absent. */
  function OverlayAt(t: MockDirectory, p: seq<string>, s: MockDirectory): MockDirectory
    decreases p
  {
    if |p| == 0 then Overlay(t, s)
    else t.(directories := t.directories[p[0] := OverlayAt(ChildOrEmpty(t, p[0]), p[1..], s)])
  }

  /** `DumpFile`: read the file from one tree, replace it in the other. */
  function DumpedFile(src: MockDirectory, from: seq<string>, dst: MockDirectory, to: seq<string>): Result<MockDirectory, FsError>
  {
    var data :- FileBytes(src, from);
    ReplacedFile(dst, to, data)
  }

  /** The destination after one source directory is dumped below `backup`:
      its tree laid over `backup` + its short name, or only that directory
      created when the source directory is missing. */
  function DumpedSourceDir(src: MockDirectory, sourceDir: string, backup: seq<string>, t: MockDirectory): MockDirectory
  {
    var target := backup + [Last(PathParts(sourceDir))];
    match DirectoryAt(src, PathParts(sourceDir))
    case Success(s) => OverlayAt(t, target, s)
    case Failure(_) => WithDirectory(t, target)
  }

  /** The destination after the source directories are dumped in order. */
  function DumpedAll(src: MockDirectory, sourceDirs: seq<string>, backup: seq<string>, t: MockDirectory): MockDirectory
    decreases |sourceDirs|
  {
    if |sourceDirs| == 0 then t
    else DumpedSourceDir(src, Last(sourceDirs), backup, DumpedAll(src, sourceDirs[..|sourceDirs| - 1], backup, t))
  }

  class BackupManager {
    const source: MockFileManager
    const destination: MockFileManager

    /** The two file managers are distinct objects and the source tree is
        well formed. */
    ghost predicate Valid()
      reads source, destination
    {
      source != destination && source.Valid() && destination.Valid()
    }

    constructor (source: MockFileManager, destination: MockFileManager)
      ensures this.source == source && this.destination == destination
    {
      this.source := source;
      this.destination := destination;
    }

    /** The source directory at `path`, or an empty one when it is missing. */
    ghost function SourceTree(path: string): MockDirectory
      reads source
    {
      match DirectoryAt(source.root, PathParts(path))
      case Success(d) => d
      case Failure(_) => EmptyDirectory
    }

    /** Dumps every source directory below `backupDir`. All of them are
        dumped even when one is missing; the failure is reported at the end. */
    method Dump(sourceDirs: seq<string>, backupDir: string) returns (r: Outcome<FsError>)
      requires Valid()
      modifies destination
      ensures Valid()
      ensures destination.root ==
        DumpedAll(source.root, sourceDirs, PathParts(backupDir), WithDirectory(old(destination.root), PathParts(backupDir)))
      ensures r == Pass <==> forall i :: 0 <= i < |sourceDirs| ==> DirectoryExists(source.root, PathParts(sourceDirs[i]))
      ensures r.Fail? ==> r.error == MockFileException
    {
      EnsureBackupDirectory(backupDir);
      r := DumpSourceDirs(sourceDirs, backupDir, destination.root);
    }

    /** The `Task.WhenAll` of `Dump`: every source directory in turn, the
        first failure kept. */
    method DumpSourceDirs(sourceDirs: seq<string>, backupDir: string, ghost t1: MockDirectory) returns (r: Outcome<FsError>)
      requires Valid() && destination.root == t1
      modifies destination
      ensures Valid()
      ensures destination.root == DumpedAll(source.root, sourceDirs, PathParts(backupDir), t1)
      ensures r == Pass <==> forall i :: 0 <= i < |sourceDirs| ==> DirectoryExists(source.root, PathParts(sourceDirs[i]))
      ensures r.Fail? ==> r.error == MockFileException
    {
      ghost var src := source.root;
      ghost var b := PathParts(backupDir);
      var err: Outcome<FsError> := Pass;
      var i := 0;
      while i < |sourceDirs|
        invariant 0 <= i <= |sourceDirs|
        invariant Valid() && source.root == src
        invariant destination.root == DumpedAll(src, sourceDirs[..i], b, t1)
        invariant err == Pass <==> forall j :: 0 <= j < i ==> DirectoryExists(src, PathParts(sourceDirs[j]))
        invariant err.Fail? ==> err.error == MockFileException
      {
        err := DumpNextSourceDir(sourceDirs, i, backupDir, src, b, t1, err);
        i := i + 1;
      }
      assert sourceDirs[..|sourceDirs|] == sourceDirs;
      r := err;
    }

    /** One step of `Dump`: dumps `sourceDirs[i]` after the ones before it
        and keeps the first failure; `src` and `b` name the source tree and
        the backup path, `err` is the outcome so far. */
    method DumpNextSourceDir(sourceDirs: seq<string>, i: nat, backupDir: string,
                             ghost src: MockDirectory, ghost b: seq<string>, ghost t1: MockDirectory,
                             err: Outcome<FsError>)
      returns (r: Outcome<FsError>)
      requires Valid() && i < |sourceDirs| && source.root == src && b == PathParts(backupDir)
      requires destination.root == DumpedAll(src, sourceDirs[..i], b, t1)
      requires err == Pass <==> forall j :: 0 <= j < i ==> DirectoryExists(src, PathParts(sourceDirs[j]))
      requires err.Fail? ==> err.error == MockFileException
      modifies destination
      ensures Valid() && source.root == src
      ensures destination.root == DumpedAll(src, sourceDirs[..i + 1], b, t1)
      ensures r == Pass <==> forall j :: 0 <= j < i + 1 ==> DirectoryExists(src, PathParts(sourceDirs[j]))
      ensures r.Fail? ==> r.error == MockFileException
    {
      var e := DumpSourceDir(sourceDirs[i], backupDir);
      DumpedAllSnoc(src, sourceDirs, i, b, t1);
      assert (forall j :: 0 <= j < i + 1 ==> DirectoryExists(src, PathParts(sourceDirs[j]))) <==>
             (forall j :: 0 <= j < i ==> DirectoryExists(src, PathParts(sourceDirs[j]))) &&
             DirectoryExists(src, PathParts(sourceDirs[i]));
      r := if err.Pass? then e else err;
    }

    method DumpSourceDir(sourceDir: string, backupDir: string) returns (r: Outcome<FsError>)
      requires Valid()
      modifies destination
      ensures Valid()
      ensures destination.root == DumpedSourceDir(source.root, sourceDir, PathParts(backupDir), old(destination.root))
      ensures r == Pass <==> DirectoryExists(source.root, PathParts(sourceDir))
      ensures r.Fail? ==> r.error == MockFileException
    {
      var shortSourceDir := source.GetDirectoryName(sourceDir);
      CombinedParts(destination, backupDir, shortSourceDir);
      DirectoryExistsIffFound(source.root, PathParts(sourceDir));
      r := DumpDirectory(sourceDir, destination.CombinePath([backupDir, shortSourceDir]));
    }

    /** Creates the directory at `path` unless it exists. */
    method EnsureBackupDirectory(path: string)
      requires Valid()
      modifies destination
      ensures Valid()
      ensures destination.root == WithDirectory(old(destination.root), PathParts(path))
    {
      if !destination.IsDirectoryExists(path) {
        destination.CreateDirectory(path);
      } else {
        CreateExistingDirectory(destination.root, PathParts(path));
      }
    }

    /** Copies the tree at `sourceDir` over the directory `backupDir`: the
        files first, then each subdirectory. */
    method DumpDirectory(sourceDir: string, backupDir: string) returns (r: Outcome<FsError>)
      requires Valid()
      modifies destination
      ensures Valid()
      ensures match DirectoryAt(source.root, PathParts(sourceDir))
                case Success(s) => r == Pass && destination.root == OverlayAt(old(destination.root), PathParts(backupDir), s)
                case Failure(e) => r == Fail(e) && destination.root == WithDirectory(old(destination.root), PathParts(backupDir))
      decreases SourceTree(sourceDir), 1
    {
      EnsureBackupDirectory(backupDir);
      var files := source.GetFiles(sourceDir);
      if files.Failure? {
        return Fail(files.error);
      }
      ghost var t0 := old(destination.root);
      WithDirectoryIsOverlay(t0, PathParts(backupDir));
      r := DumpFiles(sourceDir, backupDir, files.value, t0);
      if r.Fail? {
        return;
      }
      var dirs := source.GetDirectories(sourceDir);
      if dirs.Failure? {
        return Fail(MockFileException);
      }
      r := DumpSubDirectories(sourceDir, backupDir, dirs.value, t0);
    }

    /** Dumps every file of `sourceDir` (all of them, with the first failure
        reported at the end), laying the files over `backupDir`. */
    method DumpFiles(sourceDir: string, backupDir: string, files: set<string>, ghost t0: MockDirectory) returns (r: Outcome<FsError>)
      requires Valid()
      requires DirectoryAt(source.root, PathParts(sourceDir)).Success?
      requires files == DirectoryAt(source.root, PathParts(sourceDir)).value.files.Keys
      requires destination.root == OverlayAt(t0, PathParts(backupDir), EmptyDirectory)
      modifies destination
      ensures Valid()
      ensures r == Pass
      ensures destination.root ==
        OverlayAt(t0, PathParts(backupDir), MockDirectory(DirectoryAt(source.root, PathParts(sourceDir)).value.files, map[]))
    {
      ghost var src := source.root;
      ghost var s := DirectoryAt(src, PathParts(sourceDir)).value;
      ghost var p := PathParts(backupDir);
      var err: Outcome<FsError> := Pass;
      var pending := files;
      ghost var done: map<string, Bytes> := map[];
      while pending != {}
        invariant pending <= s.files.Keys
        invariant done.Keys == s.files.Keys - pending
        invariant forall f :: f in done ==> done[f] == s.files[f]
        invariant Valid() && source.root == src
        invariant destination.root == OverlayAt(t0, p, MockDirectory(done, map[]))
        invariant err == Pass
        decreases pending
      {
        var f :| f in pending;
        var e := DumpNextFile(sourceDir, backupDir, f, src, s, p, t0, done);
        err := if err.Pass? then e else err;
        pending := pending - {f};
        done := done[f := s.files[f]];
      }
      assert done == s.files;
      r := err;
    }

    /** One step of `DumpFiles`: the file `f` joins the files `done`
        already laid over `backupDir`. */
    method DumpNextFile(sourceDir: string, backupDir: string, f: string, ghost src: MockDirectory,
                        ghost s: MockDirectory, ghost p: seq<string>, ghost t0: MockDirectory, ghost done: map<string, Bytes>)
      returns (r: Outcome<FsError>)
      requires Valid() && source.root == src && p == PathParts(backupDir)
      requires DirectoryAt(src, PathParts(sourceDir)) == Success(s) && f in s.files
      requires destination.root == OverlayAt(t0, p, MockDirectory(done, map[]))
      modifies destination
      ensures Valid() && source.root == src
      ensures destination.root == OverlayAt(t0, p, MockDirectory(done[f := s.files[f]], map[]))
      ensures r == Pass
    {
      DirectoryAtWellFormed(src, PathParts(sourceDir));
      CombinedParts(source, sourceDir, f);
      CombinedParts(destination, backupDir, f);
      DirectoryAtChild(src, PathParts(sourceDir), f);
      ReplaceInOverlay(t0, p, MockDirectory(done, map[]), f, s.files[f]);
      r := DumpFile(sourceDir, backupDir, f);
    }

    /** Dumps every subdirectory of `sourceDir` below `backupDir`, after its
        files. */
    method DumpSubDirectories(sourceDir: string, backupDir: string, dirs: set<string>, ghost t0: MockDirectory)
      returns (r: Outcome<FsError>)
      requires Valid()
      requires DirectoryAt(source.root, PathParts(sourceDir)).Success?
      requires dirs == DirectoryAt(source.root, PathParts(sourceDir)).value.directories.Keys
      requires destination.root ==
        OverlayAt(t0, PathParts(backupDir), MockDirectory(DirectoryAt(source.root, PathParts(sourceDir)).value.files, map[]))
      modifies destination
      ensures Valid()
      ensures r == Pass
      ensures destination.root == OverlayAt(t0, PathParts(backupDir), DirectoryAt(source.root, PathParts(sourceDir)).value)
      decreases SourceTree(sourceDir), 0
    {
      ghost var src := source.root;
      ghost var s := DirectoryAt(src, PathParts(sourceDir)).value;
      ghost var p := PathParts(backupDir);
      var err: Outcome<FsError> := Pass;
      var pending := dirs;
      ghost var done: map<string, MockDirectory> := map[];
      while pending != {}
        invariant pending <= s.directories.Keys
        invariant done.Keys == s.directories.Keys - pending
        invariant forall k :: k in done ==> done[k] == s.directories[k]
        invariant Valid() && source.root == src
        invariant destination.root == OverlayAt(t0, p, MockDirectory(s.files, done))
        invariant err == Pass
        decreases pending
      {
        var k :| k in pending;
        assert s.directories[k] < s;
        var e := DumpNextSubDirectory(sourceDir, backupDir, k, src, s, p, t0, done);
        err := if err.Pass? then e else err;
        pending := pending - {k};
        done := done[k := s.directories[k]];
      }
      assert done == s.directories;
      r := err;
    }

    /** One step of `DumpSubDirectories`: the subdirectory `k` joins the
        subdirectories `done` already laid over `backupDir`. */
    method DumpNextSubDirectory(sourceDir: string, backupDir: string, k: string, ghost src: MockDirectory,
                                ghost s: MockDirectory, ghost p: seq<string>, ghost t0: MockDirectory,
                                ghost done: map<string, MockDirectory>)
      returns (r: Outcome<FsError>)
      requires Valid() && source.root == src && p == PathParts(backupDir)
      requires DirectoryAt(src, PathParts(sourceDir)) == Success(s) && k in s.directories && k !in done
      requires destination.root == OverlayAt(t0, p, MockDirectory(s.files, done))
      modifies destination
      ensures Valid() && source.root == src
      ensures destination.root == OverlayAt(t0, p, MockDirectory(s.files, done[k := s.directories[k]]))
      ensures r == Pass
      decreases s.directories[k], 3
    {
      DirectoryAtWellFormed(src, PathParts(sourceDir));
      CombinedParts(source, sourceDir, k);
      CombinedParts(destination, backupDir, k);
      DirectoryAtChild(src, PathParts(sourceDir), k);
      assert SourceTree(source.CombinePath([sourceDir, k])) == s.directories[k];
      OverlayAtChild(t0, p, MockDirectory(s.files, done), k, s.directories[k]);
      r := DumpSubDirectory(sourceDir, backupDir, k);
    }

    /** Copies one file of `sourceDir` into `backupDir`, replacing a file of
        the same name. */
    method DumpFile(sourceDir: string, backupDir: string, sourceFile: string) returns (r: Outcome<FsError>)
      requires Valid()
      modifies destination
      ensures Valid()
      ensures match DumpedFile(old(source.root), PathParts(source.CombinePath([sourceDir, sourceFile])),
                               old(destination.root), PathParts(destination.CombinePath([backupDir, sourceFile])))
                case Success(t) => r == Pass && destination.root == t
                case Failure(e) => r == Fail(e) && destination.root == old(destination.root)
    {
      var contents := source.ReadAllBytes(source.CombinePath([sourceDir, sourceFile]));
      if contents.Failure? {
        return Fail(contents.error);
      }
      r := destination.ReplaceFile(destination.CombinePath([backupDir, sourceFile]), contents.value);
    }

    method DumpSubDirectory(sourceDir: string, backupDir: string, subDir: string) returns (r: Outcome<FsError>)
      requires Valid()
      modifies destination
      ensures Valid()
      ensures match DirectoryAt(source.root, PathParts(source.CombinePath([sourceDir, subDir])))
                case Success(s) =>
                  r == Pass && destination.root ==
                  OverlayAt(old(destination.root), PathParts(destination.CombinePath([backupDir, subDir])), s)
                case Failure(e) =>
                  r == Fail(e) && destination.root ==
                  WithDirectory(old(destination.root), PathParts(destination.CombinePath([backupDir, subDir])))
      decreases SourceTree(source.CombinePath([sourceDir, subDir])), 2
    {
      var sourceSubDir := source.CombinePath([sourceDir, subDir]);
      var destSubDir := destination.CombinePath([backupDir, subDir]);
      r := DumpDirectory(sourceSubDir, destSubDir);
    }
  }

  // Laying a tree over another

  /** Laying the empty tree over a directory changes nothing. */
  lemma OverlayEmpty(d: MockDirectory)
    ensures Overlay(d, EmptyDirectory) == d
  {
    assert Overlay(d, EmptyDirectory).files == d.files;
    assert Overlay(d, EmptyDirectory).directories == d.directories;
  }

  /** Creating a directory is laying the empty tree over it. */
  lemma {:induction false} WithDirectoryIsOverlay(t: MockDirectory, p: seq<string>)
    ensures WithDirectory(t, p) == OverlayAt(t, p, EmptyDirectory)
    decreases p
  {
    if |p| == 0 {
      OverlayEmpty(t);
    } else {
      WithDirectoryIsOverlay(ChildOrEmpty(t, p[0]), p[1..]);
    }
  }

  /** After an overlay, a file holds the contents it has in `s` if it is
      there, and its old contents otherwise. */
  lemma {:induction false} OverlayFiles(d: MockDirectory, s: MockDirectory, q: seq<string>)
    ensures FileBytes(Overlay(d, s), q) == (if FileBytes(s, q).Success? then FileBytes(s, q) else FileBytes(d, q))
    decreases q
  {
    if |q| > 1 && q[0] in s.directories {
      OverlayFiles(ChildOrEmpty(d, q[0]), s.directories[q[0]], q[1..]);
      EmptyHasNoFiles(q[1..]);
    }
  }

  lemma EmptyHasNoFiles(q: seq<string>)
    ensures FileBytes(EmptyDirectory, q) == Failure(MockFileException)
  {
  }

  /** After an overlay, a directory exists exactly when it exists in either tree. */
  lemma {:induction false} OverlayDirectories(d: MockDirectory, s: MockDirectory, q: seq<string>)
    ensures DirectoryExists(Overlay(d, s), q) <==> DirectoryExists(d, q) || DirectoryExists(s, q)
    decreases q
  {
    if |q| > 0 && q[0] in s.directories {
      OverlayDirectories(ChildOrEmpty(d, q[0]), s.directories[q[0]], q[1..]);
    }
  }

  /** The files after `OverlayAt`: below `p` the files of `s` replace the
      old ones; every other file is as before. */
  lemma {:induction false} OverlayAtFiles(t: MockDirectory, p: seq<string>, s: MockDirectory, q: seq<string>)
    ensures FileBytes(OverlayAt(t, p, s), q) ==
      (if p < q && FileBytes(s, q[|p|..]).Success? then FileBytes(s, q[|p|..]) else FileBytes(t, q))
    decreases p
  {
    if |p| == 0 {
      OverlayFiles(t, s, q);
      assert q[|p|..] == q;
    } else if |q| > 1 && q[0] == p[0] {
      OverlayAtFiles(ChildOrEmpty(t, p[0]), p[1..], s, q[1..]);
      PrefixTail(p, q);
      if |p| <= |q| {
        assert q[1..][|p| - 1..] == q[|p|..];
      }
      EmptyHasNoFiles(q[1..]);
    } else if |q| > 0 && q[0] != p[0] {
      assert !(p < q);
    }
  }

  /** The directories after `OverlayAt`: the old ones, the path `p` and
      the directories of `s` below `p`. */
  lemma {:induction false} OverlayAtDirectories(t: MockDirectory, p: seq<string>, s: MockDirectory, q: seq<string>)
    ensures DirectoryExists(OverlayAt(t, p, s), q) <==>
      DirectoryExists(t, q) || q <= p || (p <= q && DirectoryExists(s, q[|p|..]))
    decreases p
  {
    if |p| == 0 {
      OverlayDirectories(t, s, q);
      assert q[|p|..] == q;
    } else if |q| > 0 && q[0] == p[0] {
      OverlayAtDirectories(ChildOrEmpty(t, p[0]), p[1..], s, q[1..]);
      PrefixTail(q, p);
      PrefixTail(p, q);
      if |p| <= |q| {
        assert q[1..][|p| - 1..] == q[|p|..];
      }
    } else if |q| > 0 {
      assert !(q <= p) && !(p <= q);
    }
  }

  /** Laying the same tree over twice is laying it over once: a second
      backup of an unchanged source leaves the destination as it is. */
  lemma {:induction false} OverlayIdempotent(d: MockDirectory, s: MockDirectory)
    ensures Overlay(Overlay(d, s), s) == Overlay(d, s)
    decreases s
  {
    var o := Overlay(d, s);
    forall k | k in s.directories
      ensures Overlay(ChildOrEmpty(o, k), s.directories[k]) == o.directories[k]
    {
      assert ChildOrEmpty(o, k) == Overlay(ChildOrEmpty(d, k), s.directories[k]);
      OverlayIdempotent(ChildOrEmpty(d, k), s.directories[k]);
    }
    assert Overlay(o, s).files == o.files;
    assert Overlay(o, s).directories == o.directories;
  }

  lemma {:induction false} OverlayAtIdempotent(t: MockDirectory, p: seq<string>, s: MockDirectory)
    ensures OverlayAt(OverlayAt(t, p, s), p, s) == OverlayAt(t, p, s)
    decreases p
  {
    if |p| == 0 {
      OverlayIdempotent(t, s);
    } else {
      var o := OverlayAt(t, p, s);
      OverlayAtIdempotent(ChildOrEmpty(t, p[0]), p[1..], s);
      assert ChildOrEmpty(o, p[0]) == OverlayAt(ChildOrEmpty(t, p[0]), p[1..], s);
      assert o.directories[p[0] := o.directories[p[0]]] == o.directories;
    }
  }

  // The steps of a directory dump

  /** Replacing a file in the top directory. */
  lemma ReplacedFileTop(t: MockDirectory, f: string, bytes: Bytes)
    ensures ReplacedFile(t, [f], bytes) == Success(t.(files := t.files[f := bytes]))
  {
    assert (t.files - {f})[f := bytes] == t.files[f := bytes];
  }

  /** Replacing a file below a subdirectory replaces it in that subdirectory. */
  lemma ReplacedFileStep(t: MockDirectory, parts: seq<string>, bytes: Bytes)
    requires |parts| >= 2 && parts[0] in t.directories
    requires ReplacedFile(t.directories[parts[0]], parts[1..], bytes).Success?
    ensures ReplacedFile(t, parts, bytes) ==
      Success(t.(directories := t.directories[parts[0] := ReplacedFile(t.directories[parts[0]], parts[1..], bytes).value]))
  {
    var child := t.directories[parts[0]];
    if FileExists(child, parts[1..]) {
      var c1 := WithoutFile(child, parts[1..]).value;
      var t1 := t.(directories := t.directories[parts[0] := c1]);
      assert WithoutFile(t, parts) == Success(t1);
      assert t1.directories[parts[0] := WithFile(c1, parts[1..], bytes).value] ==
             t.directories[parts[0] := WithFile(c1, parts[1..], bytes).value];
    }
  }

  /** Copying one file of `x` while `x` is laid over `p` extends the
      overlaid tree by that file. */
  lemma {:induction false} ReplaceInOverlay(t: MockDirectory, p: seq<string>, x: MockDirectory, f: string, bytes: Bytes)
    ensures ReplacedFile(OverlayAt(t, p, x), p + [f], bytes) == Success(OverlayAt(t, p, x.(files := x.files[f := bytes])))
    decreases p
  {
    var x' := x.(files := x.files[f := bytes]);
    if |p| == 0 {
      assert p + [f] == [f];
      ReplaceInOverlayTop(t, x, f, bytes);
    } else {
      var o := OverlayAt(t, p, x);
      ReplaceInOverlay(ChildOrEmpty(t, p[0]), p[1..], x, f, bytes);
      assert (p + [f])[0] == p[0];
      assert (p + [f])[1..] == p[1..] + [f];
      ReplacedFileStep(o, p + [f], bytes);
      assert o.directories[p[0] := OverlayAt(ChildOrEmpty(t, p[0]), p[1..], x')] ==
             t.directories[p[0] := OverlayAt(ChildOrEmpty(t, p[0]), p[1..], x')];
    }
  }

  /** The case of `ReplaceInOverlay` where `x` is laid over the top. */
  lemma ReplaceInOverlayTop(t: MockDirectory, x: MockDirectory, f: string, bytes: Bytes)
    ensures ReplacedFile(Overlay(t, x), [f], bytes) == Success(Overlay(t, x.(files := x.files[f := bytes])))
  {
    var x' := x.(files := x.files[f := bytes]);
    ReplacedFileTop(Overlay(t, x), f, bytes);
    assert Overlay(t, x).files == t.files + x.files;
    assert Overlay(t, x').files == t.files + x'.files;
    MergeUpdate(t.files, x.files, f, bytes);
  }

  /** Updating a merged map is updating its right-hand side. */
  lemma MergeUpdate<K, V>(a: map<K, V>, b: map<K, V>, k: K, v: V)
    ensures (a + b)[k := v] == a + b[k := v]
  {
  }

  /** A subdirectory `k` laid over the top of an overlaid tree. */
  lemma OverlayChild(t: MockDirectory, x: MockDirectory, k: string, y: MockDirectory)
    requires k !in x.directories
    ensures OverlayAt(Overlay(t, x), [k], y) == Overlay(t, x.(directories := x.directories[k := y]))
  {
    var o := Overlay(t, x);
    var x' := x.(directories := x.directories[k := y]);
    assert [k][1..] == [];
    var lhs := OverlayAt(o, [k], y);
    assert ChildOrEmpty(o, k) == ChildOrEmpty(t, k);
    assert OverlayAt(ChildOrEmpty(o, k), [k][1..], y) == Overlay(ChildOrEmpty(t, k), y);
    assert lhs == o.(directories := o.directories[k := Overlay(ChildOrEmpty(t, k), y)]);
    var rhs := Overlay(t, x');
    assert lhs.directories.Keys == rhs.directories.Keys;
    forall j | j in lhs.directories
      ensures lhs.directories[j] == rhs.directories[j]
    {
    }
    assert lhs.directories == rhs.directories;
  }

  /** Dumping a subdirectory `k` of `x` while `x` is laid over `p` extends
      the overlaid tree by that subdirectory. */
  lemma {:induction false} OverlayAtChild(t: MockDirectory, p: seq<string>, x: MockDirectory, k: string, y: MockDirectory)
    requires k !in x.directories
    ensures OverlayAt(OverlayAt(t, p, x), p + [k], y) == OverlayAt(t, p, x.(directories := x.directories[k := y]))
    decreases p
  {
    if |p| == 0 {
      assert p + [k] == [k];
      OverlayChild(t, x, k, y);
    } else {
      var o := OverlayAt(t, p, x);
      OverlayAtChild(ChildOrEmpty(t, p[0]), p[1..], x, k, y);
      assert (p + [k])[0] == p[0];
      assert (p + [k])[1..] == p[1..] + [k];
      assert ChildOrEmpty(o, p[0]) == OverlayAt(ChildOrEmpty(t, p[0]), p[1..], x);
    }
  }

  // What a dump leaves in the destination

  /** The files after one source directory is dumped: below its target the
      files of the source directory, elsewhere the old files. */
  lemma DumpedSourceDirFiles(src: MockDirectory, sourceDir: string, backup: seq<string>, t: MockDirectory, q: seq<string>)
    ensures var target := backup + [Last(PathParts(sourceDir))];
      var s := DirectoryAt(src, PathParts(sourceDir));
      FileBytes(DumpedSourceDir(src, sourceDir, backup, t), q) ==
      (if s.Success? && target < q && FileBytes(s.value, q[|target|..]).Success?
       then FileBytes(s.value, q[|target|..]) else FileBytes(t, q))
  {
    var target := backup + [Last(PathParts(sourceDir))];
    match DirectoryAt(src, PathParts(sourceDir))
    case Success(s) => OverlayAtFiles(t, target, s, q);
    case Failure(_) => CreateDirectoryKeepsFiles(t, target, q);
  }

  /** The directories after one source directory is dumped: the old ones,
      the target and the directories of the source below the target. */
  lemma DumpedSourceDirDirectories(src: MockDirectory, sourceDir: string, backup: seq<string>, t: MockDirectory, q: seq<string>)
    ensures var target := backup + [Last(PathParts(sourceDir))];
      var s := DirectoryAt(src, PathParts(sourceDir));
      DirectoryExists(DumpedSourceDir(src, sourceDir, backup, t), q) <==>
      DirectoryExists(t, q) || q <= target || (s.Success? && target <= q && DirectoryExists(s.value, q[|target|..]))
  {
    var target := backup + [Last(PathParts(sourceDir))];
    match DirectoryAt(src, PathParts(sourceDir))
    case Success(s) => OverlayAtDirectories(t, target, s, q);
    case Failure(_) => CreateDirectoryExists(t, target, q);
  }

  /** Dumping the same source directory twice leaves the destination as
      dumping it once. */
  lemma DumpedSourceDirIdempotent(src: MockDirectory, sourceDir: string, backup: seq<string>, t: MockDirectory)
    ensures DumpedSourceDir(src, sourceDir, backup, DumpedSourceDir(src, sourceDir, backup, t)) ==
            DumpedSourceDir(src, sourceDir, backup, t)
  {
    var target := backup + [Last(PathParts(sourceDir))];
    match DirectoryAt(src, PathParts(sourceDir))
    case Success(s) => OverlayAtIdempotent(t, target, s);
    case Failure(_) =>
      CreateDirectoryExists(t, target, target);
      CreateExistingDirectory(WithDirectory(t, target), target);
  }

  /** Dumping one more source directory extends the dump of the ones before. */
  lemma DumpedAllSnoc(src: MockDirectory, sourceDirs: seq<string>, i: nat, backup: seq<string>, t: MockDirectory)
    requires i < |sourceDirs|
    ensures DumpedAll(src, sourceDirs[..i + 1], backup, t) ==
            DumpedSourceDir(src, sourceDirs[i], backup, DumpedAll(src, sourceDirs[..i], backup, t))
  {
    assert sourceDirs[..i + 1][..i] == sourceDirs[..i];
    assert Last(sourceDirs[..i + 1]) == sourceDirs[i];
  }

  /** A dump below `backup` leaves every file outside `backup` as it was. */
  lemma {:induction false} DumpedAllKeepsOutside(src: MockDirectory, sourceDirs: seq<string>, backup: seq<string>, t: MockDirectory, q: seq<string>)
    requires !(backup < q)
    ensures FileBytes(DumpedAll(src, sourceDirs, backup, t), q) == FileBytes(t, q)
    decreases |sourceDirs|
  {
    if |sourceDirs| > 0 {
      var before := sourceDirs[..|sourceDirs| - 1];
      DumpedAllKeepsOutside(src, before, backup, t, q);
      var target := backup + [Last(PathParts(Last(sourceDirs)))];
      DumpedSourceDirFiles(src, Last(sourceDirs), backup, DumpedAll(src, before, backup, t), q);
    }
  }

  /** A dump keeps every directory that existed. */
  lemma {:induction false} DumpedAllKeepsDirectories(src: MockDirectory, sourceDirs: seq<string>, backup: seq<string>, t: MockDirectory, q: seq<string>)
    requires DirectoryExists(t, q)
    ensures DirectoryExists(DumpedAll(src, sourceDirs, backup, t), q)
    decreases |sourceDirs|
  {
    if |sourceDirs| > 0 {
      var before := sourceDirs[..|sourceDirs| - 1];
      DumpedAllKeepsDirectories(src, before, backup, t, q);
      DumpedSourceDirDirectories(src, Last(sourceDirs), backup, DumpedAll(src, before, backup, t), q);
    }
  }

  /** After `Dump`, the backup directory exists, and so does every
      directory that existed before. */
  lemma DumpKeepsBackupDirectory(src: MockDirectory, sourceDirs: seq<string>, backup: seq<string>, t: MockDirectory, q: seq<string>)
    requires DirectoryExists(t, q) || q == backup
    ensures DirectoryExists(DumpedAll(src, sourceDirs, backup, WithDirectory(t, backup)), q)
  {
    CreateDirectoryExists(t, backup, q);
    DumpedAllKeepsDirectories(src, sourceDirs, backup, WithDirectory(t, backup), q);
  }

  /** After a dump, the directory named after every source directory exists
      below `backup`, whether or not the source directory exists. */
  lemma {:induction false} DumpedAllCreatesTargets(src: MockDirectory, sourceDirs: seq<string>, backup: seq<string>, t: MockDirectory, i: nat)
    requires i < |sourceDirs|
    ensures DirectoryExists(DumpedAll(src, sourceDirs, backup, t), backup + [Last(PathParts(sourceDirs[i]))])
    decreases |sourceDirs|
  {
    var before := sourceDirs[..|sourceDirs| - 1];
    var target := backup + [Last(PathParts(sourceDirs[i]))];
    var t1 := DumpedAll(src, before, backup, t);
    DumpedSourceDirDirectories(src, Last(sourceDirs), backup, t1, target);
    if i < |sourceDirs| - 1 {
      DumpedAllCreatesTargets(src, before, backup, t, i);
    }
  }

  /** After a dump, every file of a source directory is found, with its
      contents, below the directory named after it, provided no later source
      directory has the same short name (a later one would be laid over it). */
  lemma {:induction false} DumpedAllPlacesFiles(src: MockDirectory, sourceDirs: seq<string>, backup: seq<string>, t: MockDirectory,
                                                i: nat, q: seq<string>)
    requires i < |sourceDirs| && DirectoryAt(src, PathParts(sourceDirs[i])).Success?
    requires FileBytes(DirectoryAt(src, PathParts(sourceDirs[i])).value, q).Success?
    requires forall j :: i < j < |sourceDirs| ==> Last(PathParts(sourceDirs[j])) != Last(PathParts(sourceDirs[i]))
    ensures FileBytes(DumpedAll(src, sourceDirs, backup, t), backup + [Last(PathParts(sourceDirs[i]))] + q) ==
            FileBytes(DirectoryAt(src, PathParts(sourceDirs[i])).value, q)
    decreases |sourceDirs|
  {
    var before := sourceDirs[..|sourceDirs| - 1];
    var target := backup + [Last(PathParts(sourceDirs[i]))];
    var path := target + q;
    var t1 := DumpedAll(src, before, backup, t);
    DumpedSourceDirFiles(src, Last(sourceDirs), backup, t1, path);
    if i == |sourceDirs| - 1 {
      assert |q| >= 1;
      assert path[|target|..] == q;
      assert target < path;
    } else {
      DumpedAllPlacesFiles(src, before, backup, t, i, q);
      var last := backup + [Last(PathParts(Last(sourceDirs)))];
      assert path[|backup|] != last[|backup|];
    }
  }
}
