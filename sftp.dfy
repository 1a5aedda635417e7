/** The path handling of `SftpFileManager`, which addresses remote files by
    `/`-separated paths, and its filtering of directory listings. */
module SftpPaths {
  import opened Text

  const Slash: char := '/'

  /** `CombinePath(params string[] parts)`. */
  function CombinePath(parts: seq<string>): string
  {
    Join(parts, Slash)
  }

  /** `GetDirectoryName`: the text after the last slash when that slash is
      not the first character; otherwise the whole path. */
  function GetDirectoryName(fullPath: string): (name: string)
    ensures |name| <= |fullPath| && fullPath[|fullPath| - |name|..] == name
  {
    var index := LastIndexOf(fullPath, Slash);
    if index > 0 then fullPath[index + 1..] else fullPath
  }

  /** A path with a slash past its first character yields a name without
      slashes. */
  lemma NameHasNoSlash(fullPath: string)
    requires LastIndexOf(fullPath, Slash) > 0
    ensures Slash !in GetDirectoryName(fullPath)
  {
  }

  /** Joining a non-empty directory and a slash-free name, then taking the
      name, gives the name back. */
  lemma CombinedName(directory: string, name: string)
    requires directory != "" && Slash !in name
    ensures GetDirectoryName(CombinePath([directory, name])) == name
  {
    assert [directory, name][1..] == [name];
    assert Join([name], Slash) == name;
    assert CombinePath([directory, name]) == directory + [Slash] + name;
    LastIndexOfConcat(directory, name, Slash);
  }

  /** A name without slashes is its own name. */
  lemma PlainName(name: string)
    requires Slash !in name
    ensures GetDirectoryName(name) == name
  {
  }

  /** A path whose only slash is its first character is returned whole,
      slash included: the name of the top-level `/backup` is `/backup`. */
  lemma TopLevelPathKeepsSlash(rest: string)
    requires Slash !in rest
    ensures GetDirectoryName([Slash] + rest) == [Slash] + rest
  {
    LastIndexOfConcat([], rest, Slash);
    assert [] + [Slash] + rest == [Slash] + rest;
  }

  /** A path ending in a slash past its first character has the empty name. */
  lemma TrailingSlashGivesEmptyName(directory: string)
    requires directory != ""
    ensures GetDirectoryName(directory + [Slash]) == ""
  {
    var p := directory + [Slash];
    assert p[|p| - 1] == Slash;
  }

  /** Slash-free parts are recovered by splitting the combined path. */
  lemma CombinePathSplits(parts: seq<string>)
    requires |parts| >= 1 && NoneContains(parts, Slash)
    ensures Split(CombinePath(parts), Slash) == parts
  {
    SplitJoin(parts, Slash);
  }

  /** `IsSpecificDirectory`: the entries `.` and `..` a listing includes. */
  predicate IsSpecificDirectory(dir: string)
  {
    dir == "." || dir == ".."
  }

  /** An entry of `SftpClient.ListDirectory`. */
  datatype SftpFile = SftpFile(name: string, isDirectory: bool)

  /** The `GetDirectories` query: the names of the directory entries, in
      listing order, without `.` and `..`. */
  function DirectoryNames(listing: seq<SftpFile>): (names: seq<string>)
    ensures |names| <= |listing|
    ensures forall i :: 0 <= i < |names| ==> !IsSpecificDirectory(names[i])
  {
    if |listing| == 0 then []
    else
      var rest := DirectoryNames(listing[1..]);
      if listing[0].isDirectory && !IsSpecificDirectory(listing[0].name) then [listing[0].name] + rest
      else rest
  }

  /** A name is listed exactly when some directory entry has it and it is
      neither `.` nor `..`. */
  lemma {:induction false} DirectoryNamesMembership(listing: seq<SftpFile>, name: string)
    ensures name in DirectoryNames(listing) <==>
              exists i :: 0 <= i < |listing| && listing[i].isDirectory && listing[i].name == name && !IsSpecificDirectory(name)
  {
    if |listing| > 0 {
      DirectoryNamesMembership(listing[1..], name);
      if name in DirectoryNames(listing[1..]) {
        var i :| 0 <= i < |listing[1..]| && listing[1..][i].isDirectory && listing[1..][i].name == name && !IsSpecificDirectory(name);
        assert listing[i + 1] == listing[1..][i];
      }
      if exists i :: 0 < i < |listing| && listing[i].isDirectory && listing[i].name == name && !IsSpecificDirectory(name) {
        var i :| 0 < i < |listing| && listing[i].isDirectory && listing[i].name == name && !IsSpecificDirectory(name);
        assert listing[1..][i - 1] == listing[i];
      }
    }
  }

  /** The filter drops exactly the `.` and `..` entries: neither is ever
      listed, and every other directory's name is. */
  lemma OnlyDotEntriesDropped(listing: seq<SftpFile>)
    ensures "." !in DirectoryNames(listing) && ".." !in DirectoryNames(listing)
    ensures forall i :: 0 <= i < |listing| && listing[i].isDirectory && listing[i].name != "." && listing[i].name != ".." ==>
              listing[i].name in DirectoryNames(listing)
  {
    forall i | 0 <= i < |listing| && listing[i].isDirectory && listing[i].name != "." && listing[i].name != ".."
      ensures listing[i].name in DirectoryNames(listing)
    {
      DirectoryNamesMembership(listing, listing[i].name);
    }
  }

  /** A listing of plain files yields no directories. */
  lemma {:induction false} FilesOnlyListNoDirectories(listing: seq<SftpFile>)
    requires forall i :: 0 <= i < |listing| ==> !listing[i].isDirectory
    ensures DirectoryNames(listing) == []
  {
    if |listing| > 0 {
      FilesOnlyListNoDirectories(listing[1..]);
    }
  }
}
