/** The in-memory file system the repository's tests run on
    (`MockFileManager`): a tree of directories, each holding named files and
    named subdirectories, addressed by paths whose pieces are joined by ':'.

    The tree is a value and the manager object holds the current tree in a
    field that its operations reassign; each operation is specified by a
    function on the tree, and the lemmas below say what those functions do
    to every path of the tree. */
module Mocks {
  import opened Wrappers
  import opened Primitives
  import opened Text

  const Delimiter: char := ':'

  /** What the mock throws: its own `MockFileException`, or the
      `ArgumentException` of `Dictionary.Add` for a file name already present. */
  datatype FsError = MockFileException | DuplicateKey

  datatype MockDirectory = MockDirectory(files: map<string, Bytes>, directories: map<string, MockDirectory>)

  const EmptyDirectory: MockDirectory := MockDirectory(map[], map[])

  /** The subdirectory `name`, or a new empty directory when there is none. */
  function ChildOrEmpty(parent: MockDirectory, name: string): MockDirectory
  {
    if name in parent.directories then parent.directories[name] else EmptyDirectory
  }

  /** No file or directory name anywhere in the tree holds the delimiter:
      every tree the manager's operations build has this shape, because
      their names are pieces of a split path. */
  ghost predicate WellFormed(d: MockDirectory)
    decreases d
  {
    (forall f :: f in d.files ==> Delimiter !in f) &&
    (forall k :: k in d.directories ==> Delimiter !in k && WellFormed(d.directories[k]))
  }

  /** The pieces of a path string. */
  function PathParts(path: string): (parts: seq<string>)
    ensures |parts| >= 1
  {
    Split(path, Delimiter)
  }

  /** The path of the directory holding the entry at `parts`. */
  function Parent(parts: seq<string>): seq<string>
    requires |parts| >= 1
  {
    parts[..|parts| - 1]
  }

  /** `GetDirectoryOrThrow(parent, parts)`: the directory at a path, which
      fails for the empty path and for any missing directory on the way. */
  function DirectoryAt(parent: MockDirectory, parts: seq<string>): Result<MockDirectory, FsError>
    decreases parts
  {
    if |parts| == 0 || parts[0] !in parent.directories then Failure(MockFileException)
    else if |parts| == 1 then Success(parent.directories[parts[0]])
    else DirectoryAt(parent.directories[parts[0]], parts[1..])
  }

  /** `CreateDirectory(parent, dirs)`: every missing directory on the path
      is added empty. */
  function WithDirectory(parent: MockDirectory, dirs: seq<string>): MockDirectory
    decreases dirs
  {
    if |dirs| == 0 then parent
    else parent.(directories := parent.directories[dirs[0] := WithDirectory(ChildOrEmpty(parent, dirs[0]), dirs[1..])])
  }

  /** `CreateFile(parent, parts, bytes)`. */
  function WithFile(parent: MockDirectory, parts: seq<string>, bytes: Bytes): Result<MockDirectory, FsError>
    decreases parts
  {
    if |parts| == 0 then Failure(MockFileException)
    else if |parts| == 1 then
      if parts[0] in parent.files then Failure(DuplicateKey)
      else Success(parent.(files := parent.files[parts[0] := bytes]))
    else if parts[0] !in parent.directories then Failure(MockFileException)
    else
      var sub :- WithFile(parent.directories[parts[0]], parts[1..], bytes);
      Success(parent.(directories := parent.directories[parts[0] := sub]))
  }

  /** `DeleteDirectory(parent, dirs)`; removing a missing last name is no error. */
  function WithoutDirectory(parent: MockDirectory, dirs: seq<string>): Result<MockDirectory, FsError>
    decreases dirs
  {
    if |dirs| == 0 then Failure(MockFileException)
    else if |dirs| == 1 then Success(parent.(directories := parent.directories - {dirs[0]}))
    else if dirs[0] !in parent.directories then Failure(MockFileException)
    else
      var sub :- WithoutDirectory(parent.directories[dirs[0]], dirs[1..]);
      Success(parent.(directories := parent.directories[dirs[0] := sub]))
  }

  /** `DeleteFile(parent, parts)`; removing a missing file is no error. */
  function WithoutFile(parent: MockDirectory, parts: seq<string>): Result<MockDirectory, FsError>
    decreases parts
  {
    if |parts| == 0 then Failure(MockFileException)
    else if |parts| == 1 then Success(parent.(files := parent.files - {parts[0]}))
    else if parts[0] !in parent.directories then Failure(MockFileException)
    else
      var sub :- WithoutFile(parent.directories[parts[0]], parts[1..]);
      Success(parent.(directories := parent.directories[parts[0] := sub]))
  }

  /** `IsDirectoryExists(parent, dirs)`; the empty path is the root, which exists. */
  predicate DirectoryExists(parent: MockDirectory, dirs: seq<string>)
    decreases dirs
  {
    |dirs| == 0 ||
    (dirs[0] in parent.directories && DirectoryExists(parent.directories[dirs[0]], dirs[1..]))
  }

  /** `IsFileExists(parent, parts)`; the empty path counts as existing. */
  predicate FileExists(parent: MockDirectory, parts: seq<string>)
    decreases parts
  {
    if |parts| == 0 then true
    else if |parts| == 1 then parts[0] in parent.files
    else parts[0] in parent.directories && FileExists(parent.directories[parts[0]], parts[1..])
  }

  /** `ReadAllBytes(parent, parts)`. */
  function FileBytes(parent: MockDirectory, parts: seq<string>): Result<Bytes, FsError>
    decreases parts
  {
    if |parts| == 0 then Failure(MockFileException)
    else if |parts| == 1 then
      if parts[0] in parent.files then Success(parent.files[parts[0]]) else Failure(MockFileException)
    else if parts[0] !in parent.directories then Failure(MockFileException)
    else FileBytes(parent.directories[parts[0]], parts[1..])
  }

  /** Deleting the file at `parts` if it exists and then creating it with
      `bytes`: the write sequence of `CopyFile` and of the backup's file copy. */
  function ReplacedFile(t: MockDirectory, parts: seq<string>, bytes: Bytes): Result<MockDirectory, FsError>
  {
    if FileExists(t, parts) then
      var t1 :- WithoutFile(t, parts);
      WithFile(t1, parts, bytes)
    else WithFile(t, parts, bytes)
  }

  /** `CopyFile(from, to)`: read the source, then replace the target. */
  function CopiedFile(t: MockDirectory, from: seq<string>, to: seq<string>): Result<MockDirectory, FsError>
  {
    var data :- FileBytes(t, from);
    ReplacedFile(t, to, data)
  }

  class MockFileManager {
    var root: MockDirectory

    /** Every tree reachable through the operations below is well formed. */
    ghost predicate Valid()
      reads this
    {
      WellFormed(root)
    }

    constructor ()
      ensures Valid() && root == EmptyDirectory
    {
      root := EmptyDirectory;
    }

    /** `string.Join(':', parts)`. */
    function CombinePath(parts: seq<string>): string
    {
      Join(parts, Delimiter)
    }

    /** The last piece of the path. */
    function GetDirectoryName(fullPath: string): (name: string)
      ensures Delimiter !in name
    {
      Last(PathParts(fullPath))
    }

    method CreateDirectory(directoryPath: string)
      requires Valid()
      modifies this
      ensures Valid()
      ensures root == WithDirectory(old(root), PathParts(directoryPath))
    {
      WithDirectoryWellFormed(root, PathParts(directoryPath));
      root := WithDirectory(root, PathParts(directoryPath));
    }

    method CreateFile(filePath: string, bytes: Bytes) returns (r: Outcome<FsError>)
      requires Valid()
      modifies this
      ensures Valid()
      ensures match WithFile(old(root), PathParts(filePath), bytes)
                case Success(t) => r == Pass && root == t
                case Failure(e) => r == Fail(e) && root == old(root)
    {
      var t := WithFile(root, PathParts(filePath), bytes);
      if t.Failure? {
        return Fail(t.error);
      }
      WithFileWellFormed(root, PathParts(filePath), bytes);
      root := t.value;
      r := Pass;
    }

    method DeleteDirectory(directoryPath: string) returns (r: Outcome<FsError>)
      requires Valid()
      modifies this
      ensures Valid()
      ensures match WithoutDirectory(old(root), PathParts(directoryPath))
                case Success(t) => r == Pass && root == t
                case Failure(e) => r == Fail(e) && root == old(root)
    {
      var t := WithoutDirectory(root, PathParts(directoryPath));
      if t.Failure? {
        return Fail(t.error);
      }
      WithoutDirectoryWellFormed(root, PathParts(directoryPath));
      root := t.value;
      r := Pass;
    }

    method DeleteFile(filePath: string) returns (r: Outcome<FsError>)
      requires Valid()
      modifies this
      ensures Valid()
      ensures match WithoutFile(old(root), PathParts(filePath))
                case Success(t) => r == Pass && root == t
                case Failure(e) => r == Fail(e) && root == old(root)
    {
      var t := WithoutFile(root, PathParts(filePath));
      if t.Failure? {
        return Fail(t.error);
      }
      WithoutFileWellFormed(root, PathParts(filePath));
      root := t.value;
      r := Pass;
    }

    /** Reads the source, deletes an existing target, creates the target. */
    method CopyFile(fromFilePath: string, toFilePath: string) returns (r: Outcome<FsError>)
      requires Valid()
      modifies this
      ensures Valid()
      ensures match CopiedFile(old(root), PathParts(fromFilePath), PathParts(toFilePath))
                case Success(t) => r == Pass && root == t
                case Failure(e) => r == Fail(e) && root == old(root)
    {
      var data := ReadAllBytes(fromFilePath);
      if data.Failure? {
        return Fail(data.error);
      }
      r := ReplaceFile(toFilePath, data.value);
    }

    /** Deletes the file when it exists, then creates it with `bytes`: the
        sequence `CopyFile`, `BackupManager.DumpFile` and
        `CachedFileHasher.Save` each perform. */
    method ReplaceFile(filePath: string, bytes: Bytes) returns (r: Outcome<FsError>)
      requires Valid()
      modifies this
      ensures Valid()
      ensures match ReplacedFile(old(root), PathParts(filePath), bytes)
                case Success(t) => r == Pass && root == t
                case Failure(e) => r == Fail(e) && root == old(root)
    {
      if IsFileExists(filePath) {
        var d := DeleteFile(filePath);
        if d.Fail? {
          return d;
        }
        CreateAfterDelete(old(root), PathParts(filePath), bytes);
      }
      r := CreateFile(filePath, bytes);
    }

    /** The names of the subdirectories; throws for a missing directory. */
    function GetDirectories(directoryPath: string): (r: Result<set<string>, FsError>)
      reads this
      ensures r.Success? <==> IsDirectoryExists(directoryPath)
      ensures r.Failure? ==> r.error == MockFileException
    {
      DirectoryExistsIffFound(root, PathParts(directoryPath));
      var d :- DirectoryAt(root, PathParts(directoryPath));
      Success(d.directories.Keys)
    }

    /** The names of the files; throws for a missing directory. */
    function GetFiles(directoryPath: string): (r: Result<set<string>, FsError>)
      reads this
      ensures r.Success? <==> IsDirectoryExists(directoryPath)
      ensures r.Failure? ==> r.error == MockFileException
    {
      DirectoryExistsIffFound(root, PathParts(directoryPath));
      var d :- DirectoryAt(root, PathParts(directoryPath));
      Success(d.files.Keys)
    }

    predicate IsDirectoryExists(directoryPath: string)
      reads this
    {
      DirectoryExists(root, PathParts(directoryPath))
    }

    predicate IsFileExists(filePath: string)
      reads this
    {
      FileExists(root, PathParts(filePath))
    }

    /** The contents of a file; throws for a missing one. */
    function ReadAllBytes(filePath: string): (r: Result<Bytes, FsError>)
      reads this
      ensures r.Success? <==> IsFileExists(filePath)
      ensures r.Failure? ==> r.error == MockFileException
    {
      FileExistsIffReadable(root, PathParts(filePath));
      FileBytes(root, PathParts(filePath))
    }
  }

  // Well-formedness

  lemma {:induction false} WithDirectoryWellFormed(t: MockDirectory, dirs: seq<string>)
    requires WellFormed(t) && NoneContains(dirs, Delimiter)
    ensures WellFormed(WithDirectory(t, dirs))
    decreases dirs
  {
    if |dirs| > 0 {
      WithDirectoryWellFormed(ChildOrEmpty(t, dirs[0]), dirs[1..]);
    }
  }

  lemma {:induction false} WithFileWellFormed(t: MockDirectory, parts: seq<string>, bytes: Bytes)
    requires WellFormed(t) && NoneContains(parts, Delimiter) && WithFile(t, parts, bytes).Success?
    ensures WellFormed(WithFile(t, parts, bytes).value)
    decreases parts
  {
    if |parts| > 1 {
      WithFileWellFormed(t.directories[parts[0]], parts[1..], bytes);
    }
  }

  lemma {:induction false} WithoutFileWellFormed(t: MockDirectory, parts: seq<string>)
    requires WellFormed(t) && WithoutFile(t, parts).Success?
    ensures WellFormed(WithoutFile(t, parts).value)
    decreases parts
  {
    if |parts| > 1 {
      WithoutFileWellFormed(t.directories[parts[0]], parts[1..]);
    }
  }

  lemma {:induction false} WithoutDirectoryWellFormed(t: MockDirectory, dirs: seq<string>)
    requires WellFormed(t) && WithoutDirectory(t, dirs).Success?
    ensures WellFormed(WithoutDirectory(t, dirs).value)
    decreases dirs
  {
    if |dirs| > 1 {
      WithoutDirectoryWellFormed(t.directories[dirs[0]], dirs[1..]);
    }
  }

  /** The directory found at a path of a well-formed tree is well formed. */
  lemma {:induction false} DirectoryAtWellFormed(t: MockDirectory, dirs: seq<string>)
    requires WellFormed(t) && DirectoryAt(t, dirs).Success?
    ensures WellFormed(DirectoryAt(t, dirs).value)
    decreases dirs
  {
    if |dirs| > 1 {
      DirectoryAtWellFormed(t.directories[dirs[0]], dirs[1..]);
    }
  }

  // Paths

  /** Combining a directory path with a name that holds no delimiter
      appends that name to the path's pieces. */
  lemma CombinedParts(m: MockFileManager, path: string, name: string)
    requires Delimiter !in name
    ensures PathParts(m.CombinePath([path, name])) == PathParts(path) + [name]
  {
    assert [path, name][1..] == [name];
    assert Join([name], Delimiter) == name;
    assert Join([path, name], Delimiter) == path + [Delimiter] + name;
    assert m.CombinePath([path, name]) == path + [Delimiter] + name;
    LastPieceOfAppended(path, name, Delimiter);
  }

  /** Creating a directory that exists changes nothing. */
  lemma {:induction false} CreateExistingDirectory(t: MockDirectory, dirs: seq<string>)
    requires DirectoryExists(t, dirs)
    ensures WithDirectory(t, dirs) == t
    decreases dirs
  {
    if |dirs| > 0 {
      CreateExistingDirectory(t.directories[dirs[0]], dirs[1..]);
      assert t.directories[dirs[0] := t.directories[dirs[0]]] == t.directories;
    }
  }

  /** The directory one name below a found directory. */
  lemma {:induction false} DirectoryAtChild(t: MockDirectory, dirs: seq<string>, name: string)
    requires DirectoryAt(t, dirs).Success?
    ensures DirectoryAt(t, dirs + [name]) ==
      (if name in DirectoryAt(t, dirs).value.directories
       then Success(DirectoryAt(t, dirs).value.directories[name]) else Failure(MockFileException))
    ensures FileBytes(t, dirs + [name]) ==
      (if name in DirectoryAt(t, dirs).value.files
       then Success(DirectoryAt(t, dirs).value.files[name]) else Failure(MockFileException))
    decreases dirs
  {
    assert (dirs + [name])[0] == dirs[0];
    if |dirs| > 1 {
      assert (dirs + [name])[1..] == dirs[1..] + [name];
      DirectoryAtChild(t.directories[dirs[0]], dirs[1..], name);
    } else {
      assert (dirs + [name])[1..] == [name];
    }
  }


  /** Joining names that contain no delimiter and splitting the result
      gives the names back. */
  lemma CombinePathRoundTrip(m: MockFileManager, parts: seq<string>)
    requires |parts| >= 1 && NoneContains(parts, Delimiter)
    ensures PathParts(m.CombinePath(parts)) == parts
    ensures m.GetDirectoryName(m.CombinePath(parts)) == Last(parts)
  {
    SplitJoin(parts, Delimiter);
  }

  // Files

  /** Outside the empty path, a file exists exactly when it can be read, and
      reading a missing file throws the mock's exception. */
  lemma {:induction false} FileExistsIffReadable(t: MockDirectory, parts: seq<string>)
    requires |parts| >= 1
    ensures FileExists(t, parts) <==> FileBytes(t, parts).Success?
    ensures FileBytes(t, parts).Failure? ==> FileBytes(t, parts).error == MockFileException
    decreases parts
  {
    if |parts| > 1 && parts[0] in t.directories {
      FileExistsIffReadable(t.directories[parts[0]], parts[1..]);
    }
  }

  /** Outside the empty path, a directory exists exactly when it can be
      looked up, so listing it succeeds exactly then. */
  lemma {:induction false} DirectoryExistsIffFound(t: MockDirectory, dirs: seq<string>)
    requires |dirs| >= 1
    ensures DirectoryExists(t, dirs) <==> DirectoryAt(t, dirs).Success?
    ensures DirectoryAt(t, dirs).Failure? ==> DirectoryAt(t, dirs).error == MockFileException
    decreases dirs
  {
    if |dirs| > 1 && dirs[0] in t.directories {
      DirectoryExistsIffFound(t.directories[dirs[0]], dirs[1..]);
    }
  }

  /** A file in a subdirectory exists only where that directory exists. */
  lemma {:induction false} FileLiesInExistingDirectory(t: MockDirectory, parts: seq<string>)
    requires |parts| >= 2 && FileExists(t, parts)
    ensures DirectoryExists(t, Parent(parts))
    decreases parts
  {
    ParentTail(parts);
    if |parts| > 2 {
      FileLiesInExistingDirectory(t.directories[parts[0]], parts[1..]);
    } else {
      assert Parent(parts) == [parts[0]];
    }
  }

  /** Peeling the first name off a path and its parent. */
  lemma ParentTail(parts: seq<string>)
    requires |parts| >= 2
    ensures Parent(parts[1..]) == Parent(parts)[1..]
    ensures |Parent(parts)| >= 1 && Parent(parts)[0] == parts[0]
  {
  }

  /** Creating a file fails with the mock's exception when its directory is
      missing and with a duplicate-key error when the file already exists,
      and succeeds otherwise. */
  lemma {:induction false} CreateFileOutcome(t: MockDirectory, parts: seq<string>, bytes: Bytes)
    requires |parts| >= 1
    ensures WithFile(t, parts, bytes).Success? <==> DirectoryExists(t, Parent(parts)) && !FileExists(t, parts)
    ensures !DirectoryExists(t, Parent(parts)) ==> WithFile(t, parts, bytes) == Failure(MockFileException)
    ensures DirectoryExists(t, Parent(parts)) && FileExists(t, parts) ==> WithFile(t, parts, bytes) == Failure(DuplicateKey)
    decreases parts
  {
    if |parts| > 1 {
      ParentTail(parts);
      if parts[0] in t.directories {
        CreateFileOutcome(t.directories[parts[0]], parts[1..], bytes);
      }
    }
  }

  /** Two paths with the same first name are equal exactly when their rests are. */
  lemma SameHead(p: seq<string>, q: seq<string>)
    requires |p| >= 1 && |q| >= 1 && p[0] == q[0]
    ensures p == q <==> p[1..] == q[1..]
  {
    assert p == [p[0]] + p[1..];
    assert q == [q[0]] + q[1..];
  }

  /** After a successful create, the new file holds `bytes`; every other
      file and every directory is as before. */
  lemma {:induction false} CreateFileEffect(t: MockDirectory, parts: seq<string>, bytes: Bytes, q: seq<string>)
    requires WithFile(t, parts, bytes).Success?
    ensures FileBytes(WithFile(t, parts, bytes).value, q) == (if q == parts then Success(bytes) else FileBytes(t, q))
    ensures DirectoryExists(WithFile(t, parts, bytes).value, q) == DirectoryExists(t, q)
    decreases parts
  {
    if |parts| > 1 && |q| > 0 && q[0] == parts[0] {
      CreateFileEffect(t.directories[parts[0]], parts[1..], bytes, q[1..]);
      SameHead(parts, q);
    } else if |q| > 0 && |parts| > 0 && q[0] != parts[0] {
      assert q != parts;
    }
  }

  /** Deleting a file fails exactly when its directory is missing. */
  lemma {:induction false} DeleteFileOutcome(t: MockDirectory, parts: seq<string>)
    requires |parts| >= 1
    ensures WithoutFile(t, parts).Success? <==> DirectoryExists(t, Parent(parts))
    ensures WithoutFile(t, parts).Failure? ==> WithoutFile(t, parts).error == MockFileException
    decreases parts
  {
    if |parts| > 1 {
      ParentTail(parts);
      if parts[0] in t.directories {
        DeleteFileOutcome(t.directories[parts[0]], parts[1..]);
      }
    }
  }

  /** After a successful delete the file is gone; every other file and every
      directory is as before. */
  lemma {:induction false} DeleteFileEffect(t: MockDirectory, parts: seq<string>, q: seq<string>)
    requires WithoutFile(t, parts).Success?
    ensures FileBytes(WithoutFile(t, parts).value, q) == (if q == parts then Failure(MockFileException) else FileBytes(t, q))
    ensures DirectoryExists(WithoutFile(t, parts).value, q) == DirectoryExists(t, q)
    decreases parts
  {
    if |parts| > 1 && |q| > 0 && q[0] == parts[0] {
      DeleteFileEffect(t.directories[parts[0]], parts[1..], q[1..]);
      SameHead(parts, q);
    } else if |q| > 0 && |parts| > 0 && q[0] != parts[0] {
      assert q != parts;
    }
  }

  /** Deleting a file that is not there changes nothing. */
  lemma {:induction false} DeleteMissingFileIsNoOp(t: MockDirectory, parts: seq<string>)
    requires WithoutFile(t, parts).Success? && !FileExists(t, parts)
    ensures WithoutFile(t, parts) == Success(t)
    decreases parts
  {
    if |parts| == 1 {
      assert t.files - {parts[0]} == t.files;
    } else {
      var child := t.directories[parts[0]];
      DeleteMissingFileIsNoOp(child, parts[1..]);
      assert t.directories[parts[0] := child] == t.directories;
    }
  }

  /** A file that was just deleted can always be created again. */
  lemma {:induction false} CreateAfterDelete(t: MockDirectory, parts: seq<string>, bytes: Bytes)
    requires WithoutFile(t, parts).Success?
    ensures WithFile(WithoutFile(t, parts).value, parts, bytes).Success?
    decreases parts
  {
    if |parts| > 1 {
      CreateAfterDelete(t.directories[parts[0]], parts[1..], bytes);
    }
  }

  // Directories

  /** After creating the directories of `dirs`, a directory exists exactly
      when it existed before or it is on the path `dirs`. */
  lemma {:induction false} CreateDirectoryExists(t: MockDirectory, dirs: seq<string>, q: seq<string>)
    ensures DirectoryExists(WithDirectory(t, dirs), q) <==> DirectoryExists(t, q) || q <= dirs
    decreases dirs
  {
    if |dirs| > 0 && |q| > 0 {
      if q[0] == dirs[0] {
        CreateDirectoryExists(ChildOrEmpty(t, dirs[0]), dirs[1..], q[1..]);
        PrefixTail(q, dirs);
      } else {
        assert !(q <= dirs);
      }
    }
  }

  /** Prefixes with the same first name are prefixes of the rests. */
  lemma PrefixTail(p: seq<string>, q: seq<string>)
    requires |p| >= 1 && |q| >= 1 && p[0] == q[0]
    ensures p <= q <==> p[1..] <= q[1..]
    ensures p < q <==> p[1..] < q[1..]
  {
    assert p == [p[0]] + p[1..];
    assert q == [q[0]] + q[1..];
  }

  /** Creating directories leaves every file as it was. */
  lemma {:induction false} CreateDirectoryKeepsFiles(t: MockDirectory, dirs: seq<string>, q: seq<string>)
    ensures FileBytes(WithDirectory(t, dirs), q) == FileBytes(t, q)
    decreases dirs
  {
    if |dirs| > 0 && |q| > 1 && q[0] == dirs[0] {
      CreateDirectoryKeepsFiles(ChildOrEmpty(t, dirs[0]), dirs[1..], q[1..]);
    }
  }

  /** Deleting a directory fails exactly when its parent is missing. */
  lemma {:induction false} DeleteDirectoryOutcome(t: MockDirectory, dirs: seq<string>)
    requires |dirs| >= 1
    ensures WithoutDirectory(t, dirs).Success? <==> DirectoryExists(t, Parent(dirs))
    ensures WithoutDirectory(t, dirs).Failure? ==> WithoutDirectory(t, dirs).error == MockFileException
    decreases dirs
  {
    if |dirs| > 1 {
      ParentTail(dirs);
      if dirs[0] in t.directories {
        DeleteDirectoryOutcome(t.directories[dirs[0]], dirs[1..]);
      }
    }
  }

  /** After a successful directory delete, the directory and everything
      below it are gone and the rest of the tree is as before. */
  lemma {:induction false} DeleteDirectoryEffect(t: MockDirectory, dirs: seq<string>, q: seq<string>)
    requires WithoutDirectory(t, dirs).Success?
    ensures DirectoryExists(WithoutDirectory(t, dirs).value, q) == (!(dirs <= q) && DirectoryExists(t, q))
    ensures FileBytes(WithoutDirectory(t, dirs).value, q) == (if dirs < q then Failure(MockFileException) else FileBytes(t, q))
    decreases dirs
  {
    if |q| > 0 && q[0] == dirs[0] {
      PrefixTail(dirs, q);
      if |dirs| > 1 {
        DeleteDirectoryEffect(t.directories[dirs[0]], dirs[1..], q[1..]);
      }
    } else if |q| > 0 {
      assert !(dirs <= q);
    }
  }

  // Replacing and copying files

  /** Replacing a file succeeds exactly when its directory exists; then the
      file holds `bytes` and every other file and every directory is as
      before. */
  lemma ReplacedFileEffect(t: MockDirectory, parts: seq<string>, bytes: Bytes, q: seq<string>)
    requires |parts| >= 1
    ensures ReplacedFile(t, parts, bytes).Success? <==> DirectoryExists(t, Parent(parts))
    ensures ReplacedFile(t, parts, bytes).Failure? ==> ReplacedFile(t, parts, bytes).error == MockFileException
    ensures ReplacedFile(t, parts, bytes).Success? ==>
      FileBytes(ReplacedFile(t, parts, bytes).value, q) == (if q == parts then Success(bytes) else FileBytes(t, q)) &&
      DirectoryExists(ReplacedFile(t, parts, bytes).value, q) == DirectoryExists(t, q)
  {
    CreateFileOutcome(t, parts, bytes);
    if FileExists(t, parts) {
      DeleteFileOutcome(t, parts);
      if WithoutFile(t, parts).Success? {
        var t1 := WithoutFile(t, parts).value;
        DeleteFileEffect(t, parts, q);
        CreateAfterDelete(t, parts, bytes);
        CreateFileEffect(t1, parts, bytes, q);
      }
    } else if WithFile(t, parts, bytes).Success? {
      CreateFileEffect(t, parts, bytes, q);
    }
  }

  /** Copying succeeds exactly when the source file exists and the target's
      directory exists; then the target holds the source's bytes and the
      rest of the tree is as before. */
  lemma CopiedFileEffect(t: MockDirectory, from: seq<string>, to: seq<string>, q: seq<string>)
    requires |from| >= 1 && |to| >= 1
    ensures CopiedFile(t, from, to).Success? <==> FileExists(t, from) && DirectoryExists(t, Parent(to))
    ensures CopiedFile(t, from, to).Failure? ==> CopiedFile(t, from, to).error == MockFileException
    ensures CopiedFile(t, from, to).Success? ==>
      FileBytes(CopiedFile(t, from, to).value, q) == (if q == to then FileBytes(t, from) else FileBytes(t, q)) &&
      DirectoryExists(CopiedFile(t, from, to).value, q) == DirectoryExists(t, q)
  {
    FileExistsIffReadable(t, from);
    if FileBytes(t, from).Success? {
      ReplacedFileEffect(t, to, FileBytes(t, from).value, q);
    }
  }
}
