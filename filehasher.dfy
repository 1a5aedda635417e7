/** The file fingerprints of `BackupUtility.Core.FileHasher`: a direct
    hasher that digests a file's contents, and a caching hasher that keeps
    a path-to-hash memo, persists it as `key|value` lines and reloads it. */
module FileHasher {
  import opened Wrappers
  import opened Primitives
  import opened Text
  import opened Foreign
  import opened Mocks

  /** `DirectFileHasher`: the MD5 digest of a file, decoded as UTF-8 text. */
  datatype DirectFileHasher = DirectFileHasher(fs: MockFileManager, crypto: Crypto) {

    /** `GetFileHash(byte[])`. */
    function GetContentHash(fileContent: Bytes): string
    {
      crypto.utf8Decode(crypto.md5(fileContent))
    }

    /** `GetFileHash(string)`: the hash of the contents of an existing file,
        and the empty string for a missing one. */
    function GetFileHash(filePath: string): (hash: string)
      reads fs
      ensures !fs.IsFileExists(filePath) ==> hash == ""
      ensures fs.IsFileExists(filePath) ==>
                fs.ReadAllBytes(filePath).Success? && hash == GetContentHash(fs.ReadAllBytes(filePath).value)
    {
      if fs.IsFileExists(filePath) then
        FileExistsIffReadable(fs.root, PathParts(filePath));
        GetContentHash(fs.ReadAllBytes(filePath).value)
      else ""
    }

    method ResetFileHash(filePath: string)
    {
    }

    method Save()
    {
    }
  }

  /** Two existing files with the same contents have the same hash. */
  lemma SameContentsSameHash(h: DirectFileHasher, path1: string, path2: string)
    requires h.fs.IsFileExists(path1) && h.fs.IsFileExists(path2)
    requires h.fs.ReadAllBytes(path1) == h.fs.ReadAllBytes(path2)
    ensures h.GetFileHash(path1) == h.GetFileHash(path2)
  {
  }

  // The memo file

  const NewLine: char := '\n'
  const Separator: char := '|'

  /** Why `Load` stops: the file could not be read, a line has no
      separator (`parts[1]` is out of range), or a key is already present
      (`Dictionary.Add` throws). */
  datatype CacheError = ReadError(error: FsError) | IndexOutOfRange | DuplicateCacheKey

  /** A key or value that `Save` can write and `Load` reads back. */
  predicate Storable(s: string)
  {
    Separator !in s && NewLine !in s
  }

  /** A listing of the keys of `cache`, each exactly once: one enumeration
      order of the dictionary. */
  predicate IsOrdering(order: seq<string>, cache: map<string, string>)
  {
    (forall i :: 0 <= i < |order| ==> order[i] in cache) &&
    (forall k :: k in cache ==> k in order) &&
    (forall i, j :: 0 <= i < j < |order| ==> order[i] != order[j])
  }

  /** The text `Save` builds: `key|value` and a line break for every key of
      `order`. */
  function Serialized(order: seq<string>, cache: map<string, string>): string
    requires forall i :: 0 <= i < |order| ==> order[i] in cache
  {
    if |order| == 0 then ""
    else order[0] + [Separator] + cache[order[0]] + [NewLine] + Serialized(order[1..], cache)
  }

  /** What `Load`'s loop makes of `lines`, starting from the memo `cache`:
      blank lines are skipped, every other line adds the pieces before its
      first and second separator as key and value, and the first line
      without a separator or with a key already present stops the load,
      keeping what was added until then. */
  function Parsed(cache: map<string, string>, lines: seq<string>): (map<string, string>, Outcome<CacheError>)
    decreases |lines|
  {
    if |lines| == 0 then (cache, Pass)
    else if IsBlank(lines[0]) then Parsed(cache, lines[1..])
    else
      var parts := Split(lines[0], Separator);
      if |parts| < 2 then (cache, Fail(IndexOutOfRange))
      else if parts[0] in cache then (cache, Fail(DuplicateCacheKey))
      else Parsed(cache[parts[0] := parts[1]], lines[1..])
  }

  /** Whether `Save(force, processedFiles)` writes, and the processed-files
      mark it leaves: a forced save writes unless one is in progress; an
      unforced one moves the mark and writes only once `processedFiles` is
      past the mark plus the range (in wrapping 32-bit arithmetic) and the
      memo has changed size since the last load or save. */
  function SaveDecision(force: bool, processedFiles: Int32, mark: Int32, range: Int32,
                        count: nat, loadedCount: nat, inProgress: bool): (d: (bool, Int32))
    ensures d.0 ==> !inProgress
    ensures force ==> d == (!inProgress, mark)
    ensures !force ==> (d.0 <==> processedFiles > Wrap32(mark + range) && count != loadedCount && !inProgress)
    ensures !force ==> d.1 == (if processedFiles > Wrap32(mark + range) then processedFiles else mark)
  {
    if !force then
      if processedFiles > Wrap32(mark + range) then (count != loadedCount && !inProgress, processedFiles)
      else (false, mark)
    else (!inProgress, mark)
  }

  class CachedFileHasher {
    const origin: DirectFileHasher
    const fs: MockFileManager
    const cachePath: string
    const processedFilesRange: Int32
    /** The UTF-8 codec of the memo file. */
    const crypto: Crypto

    var curProcessedFiles: Int32
    var loadedCount: nat
    var saveInProgress: bool
    var cache: map<string, string>

    constructor (origin: DirectFileHasher, fs: MockFileManager, cachePath: string, processedFilesRange: Int32, crypto: Crypto)
      ensures this.origin == origin && this.fs == fs && this.cachePath == cachePath
      ensures this.processedFilesRange == processedFilesRange && this.crypto == crypto
      ensures curProcessedFiles == 0 && loadedCount == 0 && !saveInProgress && cache == map[]
    {
      this.origin := origin;
      this.fs := fs;
      this.cachePath := cachePath;
      this.processedFilesRange := processedFilesRange;
      this.crypto := crypto;
      curProcessedFiles := 0;
      loadedCount := 0;
      saveInProgress := false;
      cache := map[];
    }

    /** The empty path hashes to "" without the memo; a memo hit is returned
        as stored; a miss asks the origin hasher and stores its answer. */
    method GetFileHash(filePath: string) returns (hash: string)
      modifies this
      ensures filePath == "" ==> hash == "" && cache == old(cache)
      ensures filePath != "" && filePath in old(cache) ==> hash == old(cache)[filePath] && cache == old(cache)
      ensures filePath != "" && filePath !in old(cache) ==>
                hash == origin.GetFileHash(filePath) && cache == old(cache)[filePath := hash]
      ensures filePath != "" && filePath !in old(cache) && origin.fs.IsFileExists(filePath) ==>
                origin.fs.ReadAllBytes(filePath).Success? &&
                cache[filePath] == GetContentHash(origin.fs.ReadAllBytes(filePath).value)
      ensures filePath != "" && filePath !in old(cache) && !origin.fs.IsFileExists(filePath) ==> cache[filePath] == ""
      ensures curProcessedFiles == old(curProcessedFiles) && loadedCount == old(loadedCount)
      ensures saveInProgress == old(saveInProgress)
    {
      if filePath == "" {
        return "";
      }
      if filePath in cache {
        return cache[filePath];
      }
      var originCache := origin.GetFileHash(filePath);
      cache := cache[filePath := originCache];
      hash := originCache;
    }

    /** `GetFileHash(byte[])`: delegated to the origin hasher, without the
        memo. */
    function GetContentHash(fileContent: Bytes): string
    {
      origin.GetContentHash(fileContent)
    }

    /** Forgets the memo entry of a non-empty path. */
    method ResetFileHash(filePath: string)
      modifies this
      ensures cache == if filePath == "" then old(cache) else old(cache) - {filePath}
      ensures curProcessedFiles == old(curProcessedFiles) && loadedCount == old(loadedCount)
      ensures saveInProgress == old(saveInProgress)
    {
      if filePath != "" {
        cache := cache - {filePath};
      }
    }

    /** Adds the entries of the memo file, if there is one, to the memo. */
    method Load() returns (r: Outcome<CacheError>)
      modifies this
      ensures !fs.IsFileExists(cachePath) ==> r == Pass && cache == old(cache) && loadedCount == old(loadedCount)
      ensures fs.IsFileExists(cachePath) ==>
                fs.ReadAllBytes(cachePath).Success? &&
                (cache, r) == Parsed(old(cache), Split(crypto.utf8Decode(fs.ReadAllBytes(cachePath).value), NewLine)) &&
                loadedCount == (if r == Pass then |cache| else old(loadedCount))
      ensures curProcessedFiles == old(curProcessedFiles) && saveInProgress == old(saveInProgress)
    {
      if !fs.IsFileExists(cachePath) {
        return Pass;
      }
      FileExistsIffReadable(fs.root, PathParts(cachePath));
      var bytes := fs.ReadAllBytes(cachePath).value;
      var text := crypto.utf8Decode(bytes);
      var lines := Split(text, NewLine);
      var i := 0;
      while i < |lines|
        invariant 0 <= i <= |lines|
        invariant Parsed(cache, lines[i..]) == Parsed(old(cache), lines)
        invariant loadedCount == old(loadedCount)
        invariant curProcessedFiles == old(curProcessedFiles) && saveInProgress == old(saveInProgress)
      {
        var line := lines[i];
        assert lines[i..][0] == line && lines[i..][1..] == lines[i + 1..];
        if IsBlank(line) {
          i := i + 1;
          continue;
        }
        var parts := Split(line, Separator);
        if |parts| < 2 {
          return Fail(IndexOutOfRange);
        }
        var key := parts[0];
        var value := parts[1];
        if key in cache {
          return Fail(DuplicateCacheKey);
        }
        cache := cache[key := value];
        i := i + 1;
      }
      loadedCount := |cache|;
      r := Pass;
    }

    /** Writes the memo to the memo file when `SaveDecision` says so: the
        old file is deleted and the serialized memo is created in its place.
        A failed write leaves `saveInProgress` set. */
    method Save(force: bool, processedFiles: Int32) returns (r: Outcome<FsError>)
      requires fs.Valid()
      modifies this, fs
      ensures fs.Valid()
      ensures cache == old(cache)
      ensures curProcessedFiles == SaveDecision(force, processedFiles, old(curProcessedFiles), processedFilesRange,
                                                |old(cache)|, old(loadedCount), old(saveInProgress)).1
      ensures !SaveDecision(force, processedFiles, old(curProcessedFiles), processedFilesRange,
                            |old(cache)|, old(loadedCount), old(saveInProgress)).0 ==>
                r == Pass && fs.root == old(fs.root) && loadedCount == old(loadedCount) &&
                saveInProgress == old(saveInProgress)
      ensures SaveDecision(force, processedFiles, old(curProcessedFiles), processedFilesRange,
                           |old(cache)|, old(loadedCount), old(saveInProgress)).0 ==>
                exists order :: IsOrdering(order, old(cache)) &&
                  match ReplacedFile(old(fs.root), PathParts(cachePath), crypto.utf8Encode(Serialized(order, old(cache))))
                  case Success(t) => r == Pass && fs.root == t && loadedCount == |old(cache)| && !saveInProgress
                  case Failure(e) => r == Fail(e) && fs.root == old(fs.root) && loadedCount == old(loadedCount) && saveInProgress
    {
      if !force {
        if processedFiles > Wrap32(curProcessedFiles + processedFilesRange) {
          curProcessedFiles := processedFiles;
        } else {
          return Pass;
        }
        if |cache| == loadedCount {
          return Pass;
        }
      }
      if saveInProgress {
        return Pass;
      }
      ghost var order;
      r, order := WriteCache();
    }

    /** The writing half of `Save`: marks the save as in progress, writes
        the serialized memo in place of the memo file, and records the
        saved size; a failed write leaves `saveInProgress` set. `order` is
        the order in which the entries were written. */
    method WriteCache() returns (r: Outcome<FsError>, ghost order: seq<string>)
      requires fs.Valid()
      modifies this, fs
      ensures fs.Valid()
      ensures cache == old(cache) && curProcessedFiles == old(curProcessedFiles)
      ensures IsOrdering(order, old(cache))
      ensures match ReplacedFile(old(fs.root), PathParts(cachePath), crypto.utf8Encode(Serialized(order, old(cache))))
                case Success(t) => r == Pass && fs.root == t && loadedCount == |old(cache)| && !saveInProgress
                case Failure(e) => r == Fail(e) && fs.root == old(fs.root) && loadedCount == old(loadedCount) && saveInProgress
    {
      saveInProgress := true;
      var cacheCopy := cache;
      var text;
      text, order := SerializeCache(cacheCopy);
      r := fs.ReplaceFile(cachePath, crypto.utf8Encode(text));
      if r.Pass? {
        loadedCount := |cacheCopy|;
        saveInProgress := false;
      }
    }
  }

  /** The text `Save` writes: one `key|value` line per entry of `cache`,
      in the order in which the dictionary enumerates them. */
  method SerializeCache(cache: map<string, string>) returns (text: string, ghost order: seq<string>)
    ensures IsOrdering(order, cache) && text == Serialized(order, cache)
  {
    text := "";
    order := [];
    var pending := cache.Keys;
    while pending != {}
      invariant pending <= cache.Keys
      invariant forall i :: 0 <= i < |order| ==> order[i] in cache && order[i] !in pending
      invariant forall k :: k in cache ==> k in order || k in pending
      invariant forall i, j :: 0 <= i < j < |order| ==> order[i] != order[j]
      invariant text == Serialized(order, cache)
      decreases pending
    {
      var key :| key in pending;
      SerializedSnoc(order, key, cache);
      text := text + key + [Separator] + cache[key] + [NewLine];
      order := order + [key];
      pending := pending - {key};
    }
  }

  /** Appending one key to the order appends its line to the text. */
  lemma {:induction false} SerializedSnoc(order: seq<string>, key: string, cache: map<string, string>)
    requires forall i :: 0 <= i < |order| ==> order[i] in cache
    requires key in cache
    ensures Serialized(order + [key], cache) == Serialized(order, cache) + key + [Separator] + cache[key] + [NewLine]
    decreases |order|
  {
    if |order| > 0 {
      assert (order + [key])[1..] == order[1..] + [key];
      SerializedSnoc(order[1..], key, cache);
    } else {
      assert order + [key] == [key];
    }
  }

  /** A line `key|value` of storable strings is not blank and splits into
      the key and the value. */
  lemma EntryLineSplits(key: string, value: string)
    requires Storable(key) && Storable(value)
    ensures !IsBlank(key + [Separator] + value)
    ensures NewLine !in key + [Separator] + value
    ensures Split(key + [Separator] + value, Separator) == [key, value]
  {
    var line := key + [Separator] + value;
    assert line[|key|] == Separator;
    SplitConcat(key, value, Separator);
    SplitWithoutSeparator(key, Separator);
    SplitWithoutSeparator(value, Separator);
  }

  /** The first line of a text, a storable entry whose key is new, is
      added to the memo and parsing goes on with the rest. */
  lemma ParsedEntry(acc: map<string, string>, key: string, value: string, rest: string)
    requires Storable(key) && Storable(value) && key !in acc
    ensures Parsed(acc, Split(key + [Separator] + value + [NewLine] + rest, NewLine))
         == Parsed(acc[key := value], Split(rest, NewLine))
  {
    var line := key + [Separator] + value;
    EntryLineSplits(key, value);
    SplitConcat(line, rest, NewLine);
    SplitWithoutSeparator(line, NewLine);
    var lines := [line] + Split(rest, NewLine);
    assert lines[0] == line && lines[1..] == Split(rest, NewLine);
  }

  /** The memo entries of the keys of `order`. */
  function Entries(order: seq<string>, cache: map<string, string>): (m: map<string, string>)
    requires forall i :: 0 <= i < |order| ==> order[i] in cache
    ensures forall k :: k in m <==> k in order
    ensures forall k :: k in m ==> m[k] == cache[k]
  {
    if |order| == 0 then map[] else Entries(order[1..], cache)[order[0] := cache[order[0]]]
  }

  /** The content hash of an existing file's bytes is the hash the origin
      gives for its path, so the memo and the content hash agree. */
  lemma CachedContentHashOfFile(h: CachedFileHasher, p: string)
    requires h.origin.fs.IsFileExists(p)
    ensures h.origin.fs.ReadAllBytes(p).Success?
    ensures h.GetContentHash(h.origin.fs.ReadAllBytes(p).value) == h.origin.GetFileHash(p)
  {
  }

  /** Parsing the serialized text of keys not yet in the memo adds exactly
      those entries. */
  lemma {:induction false} ParseSerialized(acc: map<string, string>, order: seq<string>, cache: map<string, string>)
    requires forall i :: 0 <= i < |order| ==> order[i] in cache && order[i] !in acc
    requires forall i :: 0 <= i < |order| ==> Storable(order[i]) && Storable(cache[order[i]])
    requires forall i, j :: 0 <= i < j < |order| ==> order[i] != order[j]
    ensures Parsed(acc, Split(Serialized(order, cache), NewLine)) == (acc + Entries(order, cache), Pass)
    decreases |order|
  {
    if |order| == 0 {
      assert Split("", NewLine) == [""];
      assert acc + map[] == acc;
    } else {
      var key, rest := order[0], order[1..];
      assert Serialized(order, cache) == key + [Separator] + cache[key] + [NewLine] + Serialized(rest, cache);
      ParsedEntry(acc, key, cache[key], Serialized(rest, cache));
      assert forall i :: 0 <= i < |rest| ==> rest[i] == order[i + 1];
      ParseSerialized(acc[key := cache[key]], rest, cache);
      EntriesCons(acc, order, cache);
    }
  }

  lemma EntriesCons(acc: map<string, string>, order: seq<string>, cache: map<string, string>)
    requires |order| > 0 && forall i :: 0 <= i < |order| ==> order[i] in cache
    ensures acc[order[0] := cache[order[0]]] + Entries(order[1..], cache) == acc + Entries(order, cache)
  {
  }

  /** What `Save` writes, `Load` reads back into an empty memo, provided no
      key or value holds the separator or a line break and UTF-8 decoding
      undoes the encoding of the text. */
  lemma SaveLoadRoundTrip(crypto: Crypto, order: seq<string>, cache: map<string, string>)
    requires IsOrdering(order, cache)
    requires forall k :: k in cache ==> Storable(k) && Storable(cache[k])
    requires crypto.utf8Decode(crypto.utf8Encode(Serialized(order, cache))) == Serialized(order, cache)
    ensures Parsed(map[], Split(crypto.utf8Decode(crypto.utf8Encode(Serialized(order, cache))), NewLine)) == (cache, Pass)
  {
    var empty: map<string, string> := map[];
    assert forall i :: 0 <= i < |order| ==> order[i] in cache && order[i] !in empty;
    assert forall i :: 0 <= i < |order| ==> Storable(order[i]) && Storable(cache[order[i]]);
    ParseSerialized(empty, order, cache);
    EntriesOfOrdering(order, cache);
  }

  /** The entries of an ordering of `cache` are all of `cache`. */
  lemma EntriesOfOrdering(order: seq<string>, cache: map<string, string>)
    requires IsOrdering(order, cache)
    ensures map[] + Entries(order, cache) == cache
  {
    var m := Entries(order, cache);
    SameEntries(m, cache);
    EmptyMerge(m);
  }

  lemma SameEntries<K, V>(m: map<K, V>, n: map<K, V>)
    requires forall k :: k in m <==> k in n
    requires forall k :: k in m ==> m[k] == n[k]
    ensures m == n
  {
  }

  lemma EmptyMerge<K, V>(m: map<K, V>)
    ensures map[] + m == m
  {
  }

  /** A successful save leaves the memo file in place, and loading it into
      an empty memo gives the saved memo back. */
  lemma SavedFileLoads(t: MockDirectory, cachePath: string, crypto: Crypto, order: seq<string>, cache: map<string, string>)
    requires IsOrdering(order, cache)
    requires forall k :: k in cache ==> Storable(k) && Storable(cache[k])
    requires crypto.utf8Decode(crypto.utf8Encode(Serialized(order, cache))) == Serialized(order, cache)
    requires ReplacedFile(t, PathParts(cachePath), crypto.utf8Encode(Serialized(order, cache))).Success?
    ensures var t' := ReplacedFile(t, PathParts(cachePath), crypto.utf8Encode(Serialized(order, cache))).value;
      FileExists(t', PathParts(cachePath)) && FileBytes(t', PathParts(cachePath)).Success? &&
      Parsed(map[], Split(crypto.utf8Decode(FileBytes(t', PathParts(cachePath)).value), NewLine)) == (cache, Pass)
  {
    var bytes := crypto.utf8Encode(Serialized(order, cache));
    var t' := ReplacedFile(t, PathParts(cachePath), bytes).value;
    ReplacedFileEffect(t, PathParts(cachePath), bytes, PathParts(cachePath));
    FileExistsIffReadable(t', PathParts(cachePath));
    SaveLoadRoundTrip(crypto, order, cache);
  }

  /** Blank lines, the trailing empty piece after the last line break
      among them, add nothing. */
  lemma ParsedSkipsBlank(cache: map<string, string>, blank: string, lines: seq<string>)
    requires IsBlank(blank)
    ensures Parsed(cache, [blank] + lines) == Parsed(cache, lines)
  {
    assert ([blank] + lines)[1..] == lines;
  }

  /** A non-blank line without a separator stops the load with
      `IndexOutOfRange` (`parts[1]` does not exist), keeping what was
      stored before it. */
  lemma ParsedStopsWithoutSeparator(cache: map<string, string>, line: string, rest: seq<string>)
    requires !IsBlank(line) && Separator !in line
    ensures Parsed(cache, [line] + rest) == (cache, Fail(IndexOutOfRange))
  {
    SplitWithoutSeparator(line, Separator);
    assert ([line] + rest)[0] == line;
  }

  /** A line whose key is already in the memo stops the load with the
      exception of `Dictionary.Add`, keeping the memo as it was. */
  lemma ParsedStopsAtDuplicate(cache: map<string, string>, key: string, value: string, rest: seq<string>)
    requires Separator !in key && key in cache
    ensures Parsed(cache, [key + [Separator] + value] + rest) == (cache, Fail(DuplicateCacheKey))
  {
    var line := key + [Separator] + value;
    assert !IsBlank(line) by {
      assert line[|key|] == Separator;
    }
    SplitConcat(key, value, Separator);
    SplitWithoutSeparator(key, Separator);
    assert ([line] + rest)[0] == line;
  }

  /** Text after a second separator is dropped: the line stores the pieces
      before the first and the second separator. */
  lemma ParsedDropsThirdPiece(cache: map<string, string>, key: string, value: string, tail: string, rest: seq<string>)
    requires Separator !in key && Separator !in value && key !in cache
    ensures Parsed(cache, [key + [Separator] + value + [Separator] + tail] + rest) == Parsed(cache[key := value], rest)
  {
    var pair := key + [Separator] + value;
    var line := pair + [Separator] + tail;
    assert !IsBlank(line) by {
      assert line[|key|] == Separator;
    }
    SplitConcat(key, value, Separator);
    SplitWithoutSeparator(key, Separator);
    SplitWithoutSeparator(value, Separator);
    SplitConcat(pair, tail, Separator);
    assert Split(line, Separator) == [key, value] + Split(tail, Separator);
    assert ([line] + rest)[0] == line && ([line] + rest)[1..] == rest;
  }

  /** A load never removes or changes an entry that was in the memo. */
  lemma {:induction false} ParsedExtends(cache: map<string, string>, lines: seq<string>)
    ensures forall k :: k in cache ==> k in Parsed(cache, lines).0 && Parsed(cache, lines).0[k] == cache[k]
    decreases |lines|
  {
    if |lines| > 0 {
      var parts := Split(lines[0], Separator);
      if IsBlank(lines[0]) {
        ParsedExtends(cache, lines[1..]);
      } else if |parts| >= 2 && parts[0] !in cache {
        ParsedExtends(cache[parts[0] := parts[1]], lines[1..]);
      }
    }
  }

  // The save throttle

  /** An unforced save that moved the mark to `processedFiles` lets no
      second unforced save with the same count write, as long as the range
      is not negative and the sum does not wrap. */
  lemma ThrottleHoldsRepeat(processedFiles: Int32, range: Int32, count: nat, loadedCount: nat, inProgress: bool)
    requires 0 <= range && processedFiles + range < 0x8000_0000
    ensures !SaveDecision(false, processedFiles, processedFiles, range, count, loadedCount, inProgress).0
    ensures SaveDecision(false, processedFiles, processedFiles, range, count, loadedCount, inProgress).1 == processedFiles
  {
  }

  /** Once the unforced threshold is passed, the mark moves even when the
      write is then skipped because the memo has not changed size. */
  lemma ThresholdMovesMark(processedFiles: Int32, mark: Int32, range: Int32, count: nat, inProgress: bool)
    requires processedFiles > Wrap32(mark + range)
    ensures SaveDecision(false, processedFiles, mark, range, count, count, inProgress) == (false, processedFiles)
  {
  }

  /** When `mark + range` wraps past the largest `int`, the threshold
      becomes negative, so every unforced save with a non-negative file
      count and a changed memo writes and moves the mark. */
  lemma WrappedThresholdWrites(processedFiles: Int32, mark: Int32, range: Int32, count: nat, loadedCount: nat)
    requires mark as int + range as int >= 0x8000_0000
    requires 0 <= processedFiles && count != loadedCount
    ensures Wrap32(mark + range) < 0
    ensures SaveDecision(false, processedFiles, mark, range, count, loadedCount, false) == (true, processedFiles)
  {
  }
}
