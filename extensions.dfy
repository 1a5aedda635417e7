/** `BackupUtility.Core.Extensions`: deciding whether a file changed by
    comparing digests, and naming the copies a history keeps. */
module Extensions {
  import opened Wrappers
  import opened Primitives
  import opened Text
  import opened Foreign

  /** `FileChangeValidator`; `crypto.md5` stands for `MD5.Create()`. */
  datatype FileChangeValidator = FileChangeValidator(crypto: Crypto) {

    /** Whether the MD5 digests of the two contents differ: first by
        length, then byte by byte. */
    method IsFileChanged(oldContents: Bytes, newContents: Bytes) returns (changed: bool)
      ensures changed <==> crypto.md5(oldContents) != crypto.md5(newContents)
    {
      var oldHash := crypto.md5(oldContents);
      var newHash := crypto.md5(newContents);
      if |oldHash| != |newHash| {
        return true;
      }
      for i := 0 to |oldHash|
        invariant oldHash[..i] == newHash[..i]
      {
        if oldHash[i] != newHash[i] {
          return true;
        }
        assert oldHash[..i + 1] == oldHash[..i] + [oldHash[i]];
        assert newHash[..i + 1] == newHash[..i] + [newHash[i]];
      }
      assert oldHash == oldHash[..|oldHash|] && newHash == newHash[..|newHash|];
      changed := false;
    }
  }

  /** `HistoryProvider`. The time manager is not a field: the current time
      is passed to `ConvertFileNameToVersionedFileName` as whole seconds
      since the Unix epoch. */
  datatype HistoryProvider = HistoryProvider(
    dirConverter: string -> string,
    fileConverter: (string, int) -> string,
    depth: Int32)
  {
    function ConvertFileNameToHistoryDirectoryName(name: string): string
    {
      dirConverter(name)
    }

    function ConvertFileNameToVersionedFileName(name: string, now: int): string
    {
      fileConverter(name, now)
    }
  }

  const HistorySuffix: string := ".history"

  /** The default history directory of a file: `.{name}.history`. */
  function HistoryDirectoryName(name: string): string
  {
    "." + name + HistorySuffix
  }

  /** The default versioned name: `{unix seconds}.{name}`. */
  function VersionedFileName(name: string, now: int): string
  {
    IntToString(now) + "." + name
  }

  /** `DefaultHistoryProvider(time, depth)`. */
  function DefaultHistoryProvider(depth: Int32): (h: HistoryProvider)
    ensures h.depth == depth
    ensures forall name :: h.ConvertFileNameToHistoryDirectoryName(name) == HistoryDirectoryName(name)
    ensures forall name, now :: h.ConvertFileNameToVersionedFileName(name, now) == VersionedFileName(name, now)
  {
    HistoryProvider(HistoryDirectoryName, VersionedFileName, depth)
  }

  /** The file name a default history directory belongs to, if `dir` is one. */
  function NameOfHistoryDirectory(dir: string): Option<string>
  {
    if |dir| >= 1 + |HistorySuffix| && dir[0] == '.' && dir[|dir| - |HistorySuffix|..] == HistorySuffix
    then Some(dir[1..|dir| - |HistorySuffix|])
    else None
  }

  /** The time and file name of a default versioned name, if `versioned` is one:
      the text before the first dot must be an integer. */
  function ParseVersionedFileName(versioned: string): Option<(string, int)>
  {
    var dot := IndexOf(versioned, '.');
    if dot < 0 then None
    else match ParseInt(versioned[..dot])
      case Some(now) => Some((versioned[dot + 1..], now))
      case None => None
  }

  /** A history directory name gives its file name back, and only such
      names do. */
  lemma HistoryDirectoryRoundTrip(name: string, dir: string)
    ensures NameOfHistoryDirectory(HistoryDirectoryName(name)) == Some(name)
    ensures NameOfHistoryDirectory(dir) == Some(name) ==> HistoryDirectoryName(name) == dir
  {
    var d := HistoryDirectoryName(name);
    assert d[|d| - |HistorySuffix|..] == HistorySuffix;
    assert d[1..|d| - |HistorySuffix|] == name;
    if NameOfHistoryDirectory(dir) == Some(name) {
      assert dir == [dir[0]] + dir[1..|dir| - |HistorySuffix|] + dir[|dir| - |HistorySuffix|..];
    }
  }

  /** The history directory of a file never has the file's own name, so it
      can sit beside the file. */
  lemma HistoryDirectoryIsNotTheFile(name: string)
    ensures HistoryDirectoryName(name) != name
  {
    assert |HistoryDirectoryName(name)| == |name| + 9;
  }

  /** A versioned name gives its time and file name back. */
  lemma VersionedFileNameRoundTrip(name: string, now: int)
    ensures ParseVersionedFileName(VersionedFileName(name, now)) == Some((name, now))
  {
    var stamp := IntToString(now);
    assert '.' !in stamp by {
      forall i | 0 <= i < |stamp| ensures stamp[i] != '.' {
        assert IsDigit(stamp[i]) || stamp[i] == '-';
      }
    }
    assert VersionedFileName(name, now) == stamp + ['.'] + name;
    IndexOfConcat(stamp, name, '.');
    var v := VersionedFileName(name, now);
    assert v[..|stamp|] == stamp && v[|stamp| + 1..] == name;
    IntToStringRoundTrip(now);
  }

  /** Two copies of the same file made at different seconds get different
      names, and copies of different files never share a name. */
  lemma VersionedFileNamesDistinct(name1: string, now1: int, name2: string, now2: int)
    requires (name1, now1) != (name2, now2)
    ensures VersionedFileName(name1, now1) != VersionedFileName(name2, now2)
  {
    VersionedFileNameRoundTrip(name1, now1);
    VersionedFileNameRoundTrip(name2, now2);
  }

  /** A versioned name ends with `.` and the file's name. */
  lemma VersionedFileNameEndsWithName(name: string, now: int)
    ensures var v := VersionedFileName(name, now); |v| > |name| && v[|v| - |name| - 1..] == "." + name
  {
  }
}
