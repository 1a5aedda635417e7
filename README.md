# BackupUtility core, modelled in Dafny

BackupUtility copies directory trees from a source file system to a
destination file system (local disk or SFTP), keeps a memo of file hashes
so that unchanged files can be skipped, and names the older copies it keeps
in a history directory. This project models the core of that program and
proves what its operations do:

- `mocks.dfy` (`Mocks`): the in-memory file system used by the tests. It is
  a tree of directories addressed by `:`-separated paths. The class
  `MockFileManager` holds the tree in a field. Each operation either
  replaces the tree with the one a specification function computes, or
  fails without changing it: `MockFileException` for a missing directory
  or file, `DuplicateKey` for a file created twice.
- `backup.dfy` (`Backup`): `BackupManager.Dump`. It copies every source
  directory, recursively, into `backup/<last name of the source>` on the
  destination. The result is specified as one tree laid over another
  (`Overlay`, `OverlayAt`, `DumpedAll`). Lemmas then say which files and
  directories the destination holds afterwards.
- `filehasher.dfy` (`FileHasher`): `DirectFileHasher`, and the class
  `CachedFileHasher` with its memo dictionary.
  - `Load` parses the memo file.
  - `Save` is throttled by a processed-files mark and guarded by an
    in-progress flag. It writes `key|value` lines.
  - A Save followed by a Load gives the memo back.
- `extensions.dfy` (`Extensions`): `FileChangeValidator`, which compares
  two MD5 digests byte by byte, and `HistoryProvider`, the names of history
  directories and versioned copies.
- `models.dfy` (`Models`):
  - `BackupFileResult` and `BackupDirResult` with their counts and texts;
  - the `BackupProgress` counters, with `int`/`long` wrap-around.
- `sftp.dfy` (`SftpPaths`): the path helpers of `SftpFileManager` and the
  filter that drops `.` and `..` from a listing.
- `cli.dfy` (`Cli`): `CreateFileManager` and `CreateTasks` of the
  command-line runner.

Helper modules:

- `wrappers.dfy`: `Option`, `Result` and `Outcome`.
- `text.dfy`: split, join, index search and decimal text.
- `primitives.dfy`: bytes and 32/64-bit wrap-around.
- `foreign.dfy`: MD5 and UTF-8, passed in as functions.

The asynchronous methods of the source run one after the other in the
model. Each `Task.WhenAll` becomes a loop over its items: in list order for
the source directories, in any order for the files and subdirectories of a
directory.

In these edge cases the model follows the mock's code:

- `CreateFile` throws when the file already exists, because
  `Dictionary.Add` throws.
- `IsFileExists` of the empty path list is true.
- `GetDirectoryName` of the SFTP manager returns a path whose only slash
  is its first character unchanged, slash included.

## Model

| member | source | states |
|---|---|---|
| Mocks.MockFileManager.constructor | BackupUtility.Tests/Mocks/MockFileManager.cs:18 | a new manager holds an empty root |
| Mocks.MockFileManager.GetDirectoryName | BackupUtility.Tests/Mocks/MockFileManager.cs:24-26 | the name is the last `:`-piece and holds no delimiter |
| Mocks.MockFileManager.CreateDirectory | BackupUtility.Tests/Mocks/MockFileManager.cs:36-51 | the new tree is the old one with every directory along the path added, keeping the well-formedness invariant |
| Mocks.MockFileManager.CreateFile | BackupUtility.Tests/Mocks/MockFileManager.cs:53-67 | the tree gains the file, or the call fails and leaves the tree unchanged |
| Mocks.MockFileManager.DeleteDirectory | BackupUtility.Tests/Mocks/MockFileManager.cs:69-83 | the directory is removed, or the call fails and leaves the tree unchanged |
| Mocks.MockFileManager.DeleteFile | BackupUtility.Tests/Mocks/MockFileManager.cs:85-99 | the file is removed, or the call fails and leaves the tree unchanged |
| Mocks.MockFileManager.CopyFile | BackupUtility.Tests/Mocks/MockFileManager.cs:28-34 | read, then delete an existing target, then create it; the result is the copied tree, or a failure with the tree unchanged |
| Mocks.MockFileManager.ReplaceFile | BackupUtility.Tests/Mocks/MockFileManager.cs:30-33 | an existing file is deleted and the file is then created with the new bytes: the result is the tree with that file replaced, or a failure with the tree unchanged |
| Mocks.MockFileManager.GetDirectories | BackupUtility.Tests/Mocks/MockFileManager.cs:101-104 | succeeds exactly when the directory exists; otherwise throws `MockFileException` |
| Mocks.MockFileManager.GetFiles | BackupUtility.Tests/Mocks/MockFileManager.cs:106-109 | succeeds exactly when the directory exists; otherwise throws `MockFileException` |
| Mocks.MockFileManager.ReadAllBytes | BackupUtility.Tests/Mocks/MockFileManager.cs:144-159 | succeeds exactly when `IsFileExists` holds; otherwise throws `MockFileException` |
| Mocks.PathParts | BackupUtility.Tests/Mocks/MockFileManager.cs:37 | splitting a path never gives an empty list |
| Mocks.CombinedParts | BackupUtility.Tests/Mocks/MockFileManager.cs:20-22 | combining a path with a delimiter-free name and splitting again gives the path's pieces plus the name |
| Mocks.CombinePathRoundTrip | BackupUtility.Tests/Mocks/MockFileManager.cs:20-26 | splitting a combined path gives its delimiter-free parts back; its directory name is the last part |
| Mocks.CreateExistingDirectory | BackupUtility.Tests/Mocks/MockFileManager.cs:41-51 | creating a directory that exists changes nothing |
| Mocks.CreateDirectoryExists | BackupUtility.Tests/Mocks/MockFileManager.cs:41-51 | afterwards a directory exists exactly when it existed before or is a prefix of the created path |
| Mocks.CreateDirectoryKeepsFiles | BackupUtility.Tests/Mocks/MockFileManager.cs:41-51 | creating directories leaves the contents of every file path unchanged |
| Mocks.CreateFileOutcome | BackupUtility.Tests/Mocks/MockFileManager.cs:58-67 | succeeds exactly when the parent exists and the file does not; otherwise `MockFileException` for a missing parent, `DuplicateKey` for an existing file |
| Mocks.CreateFileEffect | BackupUtility.Tests/Mocks/MockFileManager.cs:58-67 | after success the path holds the bytes; every other file and every directory is as before |
| Mocks.DeleteFileOutcome | BackupUtility.Tests/Mocks/MockFileManager.cs:90-99 | succeeds exactly when the parent directory exists; otherwise `MockFileException` |
| Mocks.DeleteFileEffect | BackupUtility.Tests/Mocks/MockFileManager.cs:90-99 | after success the file is gone; every other file and every directory is as before |
| Mocks.DeleteMissingFileIsNoOp | BackupUtility.Tests/Mocks/MockFileManager.cs:94-96 | deleting a missing file in an existing directory leaves the tree as it was |
| Mocks.CreateAfterDelete | BackupUtility.Tests/Mocks/MockFileManager.cs:28-34 | once a file is deleted, creating it again succeeds |
| Mocks.DeleteDirectoryOutcome | BackupUtility.Tests/Mocks/MockFileManager.cs:74-83 | succeeds exactly when the parent directory exists; otherwise `MockFileException` |
| Mocks.DeleteDirectoryEffect | BackupUtility.Tests/Mocks/MockFileManager.cs:74-83 | afterwards nothing at or below the path exists; everything else is as before |
| Mocks.FileExistsIffReadable | BackupUtility.Tests/Mocks/MockFileManager.cs:130-159 | `IsFileExists` holds exactly when `ReadAllBytes` succeeds; a failed read is `MockFileException` |
| Mocks.FileLiesInExistingDirectory | BackupUtility.Tests/Mocks/MockFileManager.cs:115-142 | a file below the root exists only where its parent directory exists |
| Mocks.DirectoryExistsIffFound | BackupUtility.Tests/Mocks/MockFileManager.cs:115-177 | `IsDirectoryExists` holds exactly when looking the directory up succeeds; a failed lookup is `MockFileException` |
| Mocks.ReplacedFileEffect | BackupUtility.Tests/Mocks/MockFileManager.cs:28-34 | delete-if-present then create succeeds exactly when the parent exists; afterwards the file holds the bytes and nothing else changed |
| Mocks.CopiedFileEffect | BackupUtility.Tests/Mocks/MockFileManager.cs:28-34 | a copy succeeds exactly when the source file and the target's parent exist; afterwards the target holds the source's bytes and nothing else changed |
| Backup.BackupManager.constructor | BackupUtility.Core/BackupManager/BackupManager.cs:11-14 | the manager keeps the two file managers it is given |
| Backup.BackupManager.Dump | BackupUtility.Core/BackupManager/BackupManager.cs:16-19 | the backup directory is ensured; then every source directory is dumped in turn; the call succeeds exactly when every source directory exists |
| Backup.BackupManager.DumpSourceDirs | BackupUtility.Core/BackupManager/BackupManager.cs:17-18 | the source directories are dumped in order; the outcome is a success exactly when every one of them exists, and a failure is the mock's exception |
| Backup.BackupManager.DumpNextSourceDir | BackupUtility.Core/BackupManager/BackupManager.cs:17-18 | one more source directory is dumped after the earlier ones, and the outcome so far stays a success exactly when all of them exist |
| Backup.BackupManager.DumpSourceDir | BackupUtility.Core/BackupManager/BackupManager.cs:21-24 | the source is dumped into `backup/<its last name>`; succeeds exactly when the source directory exists |
| Backup.BackupManager.EnsureBackupDirectory | BackupUtility.Core/BackupManager/BackupManager.cs:26-30 | the destination gains the directory path and nothing else |
| Backup.BackupManager.DumpDirectory | BackupUtility.Core/BackupManager/BackupManager.cs:32-38 | the destination becomes the source subtree laid over the target directory; a missing source leaves only the ensured target directory and fails |
| Backup.BackupManager.DumpFiles | BackupUtility.Core/BackupManager/BackupManager.cs:35 | all files of the source directory are copied into the target |
| Backup.BackupManager.DumpNextFile | BackupUtility.Core/BackupManager/BackupManager.cs:35 | one more file of the source directory joins the files already copied into the target |
| Backup.BackupManager.DumpSubDirectories | BackupUtility.Core/BackupManager/BackupManager.cs:36-37 | all subdirectories are dumped recursively, so the target holds the whole source subtree laid over it |
| Backup.BackupManager.DumpNextSubDirectory | BackupUtility.Core/BackupManager/BackupManager.cs:36-37 | one more subdirectory joins the subdirectories already dumped into the target |
| Backup.BackupManager.DumpFile | BackupUtility.Core/BackupManager/BackupManager.cs:40-47 | the target file is replaced by the source file's bytes, or the call fails with the destination unchanged |
| Backup.BackupManager.DumpSubDirectory | BackupUtility.Core/BackupManager/BackupManager.cs:49-53 | the subdirectory is dumped into the matching subdirectory of the target |
| Backup.WithDirectoryIsOverlay | BackupUtility.Core/BackupManager/BackupManager.cs:26-30 | ensuring a directory is laying an empty tree over that path |
| Backup.OverlayFiles | BackupUtility.Core/BackupManager/BackupManager.cs:40-47 | after a lay-over every path holds the source's file if the source has one there, else the old file |
| Backup.OverlayDirectories | BackupUtility.Core/BackupManager/BackupManager.cs:32-38 | after a lay-over a directory exists exactly when it existed in either tree |
| Backup.OverlayAtFiles | BackupUtility.Core/BackupManager/BackupManager.cs:32-38 | below the target the destination holds the source's files; all other files are kept |
| Backup.OverlayAtDirectories | BackupUtility.Core/BackupManager/BackupManager.cs:32-38 | afterwards the directories are the old ones, the target path and the source's directories below the target |
| Backup.OverlayIdempotent | BackupUtility.Core/BackupManager/BackupManager.cs:32-38 | laying the same tree over twice equals laying it over once |
| Backup.OverlayAtIdempotent | BackupUtility.Core/BackupManager/BackupManager.cs:32-38 | dumping a directory twice into the same target equals dumping it once |
| Backup.DumpedSourceDirFiles | BackupUtility.Core/BackupManager/BackupManager.cs:21-24 | which bytes each path holds after one source directory is dumped |
| Backup.DumpedSourceDirDirectories | BackupUtility.Core/BackupManager/BackupManager.cs:21-24 | which directories exist after one source directory is dumped |
| Backup.DumpedSourceDirIdempotent | BackupUtility.Core/BackupManager/BackupManager.cs:21-24 | dumping a source directory a second time changes nothing |
| Backup.DumpedAllKeepsOutside | BackupUtility.Core/BackupManager/BackupManager.cs:16-19 | a dump leaves every file outside the backup directory as it was |
| Backup.DumpedAllKeepsDirectories | BackupUtility.Core/BackupManager/BackupManager.cs:16-19 | a dump removes no directory |
| Backup.DumpKeepsBackupDirectory | BackupUtility.Core/BackupManager/BackupManager.cs:16-19 | after `Dump` the backup directory exists, and so does every directory that existed before |
| Backup.DumpedAllCreatesTargets | BackupUtility.Core/BackupManager/BackupManager.cs:16-24 | after a dump, `backup/<last name>` exists for every source directory |
| Backup.DumpedAllPlacesFiles | BackupUtility.Core/BackupManager/BackupManager.cs:16-24 | every file of an existing source directory is found under `backup/<last name>`, unless a later source with the same last name overwrote it |
| FileHasher.DirectFileHasher.GetFileHash | BackupUtility.Core/FileHasher/DirectFileHasher.cs:14-20 | an existing file's hash is the hash of its readable contents; a missing file's hash is empty |
| FileHasher.SameContentsSameHash | BackupUtility.Core/FileHasher/DirectFileHasher.cs:14-26 | two existing files with equal contents have equal hashes |
| FileHasher.CachedFileHasher.constructor | BackupUtility.Core/FileHasher/CachedFileHasher.cs:13-24 | the fields hold the arguments; the counters start at zero, the flag is off and the memo is empty |
| FileHasher.CachedFileHasher.GetFileHash | BackupUtility.Core/FileHasher/CachedFileHasher.cs:26-36 | an empty path gives empty; a memoised path gives its memo; any other path gives the origin's hash, which is added to the memo: the content hash of the file's bytes for an existing file, empty for a missing one; nothing else changes |
| FileHasher.CachedContentHashOfFile | BackupUtility.Core/FileHasher/CachedFileHasher.cs:38-40 | the content hash of an existing file's bytes is the origin's hash of that file, so a memo miss stores the content hash |
| FileHasher.CachedFileHasher.ResetFileHash | BackupUtility.Core/FileHasher/CachedFileHasher.cs:42-46 | a non-empty path is dropped from the memo; nothing else changes |
| FileHasher.CachedFileHasher.Load | BackupUtility.Core/FileHasher/CachedFileHasher.cs:48-64 | a missing memo file changes nothing; otherwise the memo is what parsing the decoded lines gives; the loaded count is set only when parsing reached the end |
| FileHasher.CachedFileHasher.Save | BackupUtility.Core/FileHasher/CachedFileHasher.cs:66-98 | the mark and the decision to write follow the throttle; a write replaces the memo file with the serialized memo in some key order; success resets the flag and the loaded count; a failed create leaves the file system as it was and the flag set |
| FileHasher.CachedFileHasher.WriteCache | BackupUtility.Core/FileHasher/CachedFileHasher.cs:80-97 | the memo file is replaced by the serialized memo in some key order that covers every key once; success records the saved size and clears the flag, a failure keeps the flag set and the file system unchanged |
| FileHasher.SerializeCache | BackupUtility.Core/FileHasher/CachedFileHasher.cs:81-89 | the text is one line per entry, the key and the value joined by the separator, in an order that lists every key exactly once |
| FileHasher.SaveDecision | BackupUtility.Core/FileHasher/CachedFileHasher.cs:66-80 | a forced save writes unless one is in progress; an unforced one writes only past the wrapped threshold and when the memo size changed; no write while one is in progress |
| FileHasher.ThrottleHoldsRepeat | BackupUtility.Core/FileHasher/CachedFileHasher.cs:67-72 | without overflow, an unforced save at the current mark does not write and keeps the mark |
| FileHasher.ThresholdMovesMark | BackupUtility.Core/FileHasher/CachedFileHasher.cs:68-75 | past the threshold an unforced save moves the mark even when the memo is unchanged and it does not write |
| FileHasher.WrappedThresholdWrites | BackupUtility.Core/FileHasher/CachedFileHasher.cs:68-75 | for every mark and range whose sum reaches 2^31, the threshold wraps negative, so an unforced save at any non-negative count of a changed memo writes and moves the mark to that count |
| FileHasher.SerializedSnoc | BackupUtility.Core/FileHasher/CachedFileHasher.cs:83-89 | the text grows by the key, the separator, the value and a line break for each key appended |
| FileHasher.EntryLineSplits | BackupUtility.Core/FileHasher/CachedFileHasher.cs:57-59 | a written line is not blank, holds no line break and splits back into its key and value |
| FileHasher.ParsedEntry | BackupUtility.Core/FileHasher/CachedFileHasher.cs:53-61 | reading a written line adds its key and value to the memo and goes on with the rest |
| FileHasher.ParseSerialized | BackupUtility.Core/FileHasher/CachedFileHasher.cs:48-64 | parsing the serialized text of distinct storable keys adds exactly those entries and reaches the end |
| FileHasher.SaveLoadRoundTrip | BackupUtility.Core/FileHasher/CachedFileHasher.cs:81-95 | loading what `Save` encodes into an empty memo gives the saved memo back, when keys and values hold neither separator |
| FileHasher.SavedFileLoads | BackupUtility.Core/FileHasher/CachedFileHasher.cs:90-95 | after the memo file is replaced, it exists and loading it gives the saved memo |
| FileHasher.ParsedSkipsBlank | BackupUtility.Core/FileHasher/CachedFileHasher.cs:54-56 | blank lines are skipped |
| FileHasher.ParsedStopsWithoutSeparator | BackupUtility.Core/FileHasher/CachedFileHasher.cs:57-59 | a non-blank line without a separator stops the load with `IndexOutOfRange`, keeping the memo read so far and ignoring the remaining lines |
| FileHasher.ParsedStopsAtDuplicate | BackupUtility.Core/FileHasher/CachedFileHasher.cs:57-60 | a line whose key is already in the memo stops the load with the duplicate-key exception, keeping the memo read so far |
| FileHasher.ParsedDropsThirdPiece | BackupUtility.Core/FileHasher/CachedFileHasher.cs:57-60 | text after a second separator is dropped: the line adds only its first two pieces |
| FileHasher.ParsedExtends | BackupUtility.Core/FileHasher/CachedFileHasher.cs:53-61 | loading only adds entries: every entry already in the memo keeps its value |
| Extensions.FileChangeValidator.IsFileChanged | BackupUtility.Core/Extensions/FileChangeValidator.cs:5-19 | changed exactly when the MD5 digests of the two contents differ |
| Extensions.DefaultHistoryProvider | BackupUtility.Core/Extensions/HistoryProvider.cs:45-52 | the provider keeps the depth and converts with `.{name}.history` and `{seconds}.{name}` |
| Extensions.HistoryDirectoryRoundTrip | BackupUtility.Core/Extensions/HistoryProvider.cs:48 | the file name is recovered from its history directory name, and only from that name |
| Extensions.HistoryDirectoryIsNotTheFile | BackupUtility.Core/Extensions/HistoryProvider.cs:48 | a history directory never has the file's own name |
| Extensions.VersionedFileNameRoundTrip | BackupUtility.Core/Extensions/HistoryProvider.cs:49 | the seconds and the file name are recovered from a versioned name |
| Extensions.VersionedFileNamesDistinct | BackupUtility.Core/Extensions/HistoryProvider.cs:49 | different (name, second) pairs give different versioned names |
| Extensions.VersionedFileNameEndsWithName | BackupUtility.Core/Extensions/HistoryProvider.cs:49 | a versioned name ends with `.` and the file name |
| Models.BackupFileResult.ToString | BackupUtility.Core/Models/BackupFileResult.cs:17-19 | the text is the header followed by the exception's text |
| Models.FileResultTextShowsSuccess | BackupUtility.Core/Models/BackupFileResult.cs:9-19 | when exception texts are non-empty, the text is the bare header exactly when the copy succeeded |
| Models.SuccessCountBounds | BackupUtility.Core/Models/BackupDirResult.cs:11 | at most the total; equal to it exactly when all succeeded; zero exactly when none did |
| Models.FailureCount | BackupUtility.Core/Models/BackupDirResult.cs:12 | at most the total; zero exactly when all succeeded |
| Models.BackupDirResult.TotalResults | BackupUtility.Core/Models/BackupDirResult.cs:10 | the total is the number of successes plus the number of failures |
| Models.BackupDirResult.ToString | BackupUtility.Core/Models/BackupDirResult.cs:20-22 | the text starts with the shared header and ends with the total |
| Models.BackupDirResult.SuccessResults | BackupUtility.Core/Models/BackupDirResult.cs:11 | at most the total; equal to it exactly when every copy succeeded |
| Models.BackupDirResult.FailedResults | BackupUtility.Core/Models/BackupDirResult.cs:12 | at most the total; zero exactly when every copy succeeded |
| Models.CountsAddUp | BackupUtility.Core/Models/BackupDirResult.cs:10-12 | successes and failures add up to the total |
| Models.DirCountsAddUp | BackupUtility.Core/Models/BackupDirResult.cs:10-12 | a directory's success and failure counts add up to its total |
| Models.SuccessCountPermutation | BackupUtility.Core/Models/BackupDirResult.cs:11 | the success count does not depend on the order in which results arrive |
| Models.DirResultTextRoundTrip | BackupUtility.Core/Models/BackupDirResult.cs:20-22 | the `{success}/{total}` at the end of the text reads back as the two counts |
| Models.BackupProgress.constructor | BackupUtility.Core/Models/BackupProgress.cs:5-8 | all counters start at zero and the progress is not done |
| Models.BackupProgress.Advance | BackupUtility.Core/Models/BackupProgress.cs:10-14 | bytes grow by the advance and files by one, both with wrap-around; elapsed is replaced; the counters stay equal to the wrapped count and sum of all advances |
| Models.BackupProgress.Finish | BackupUtility.Core/Models/BackupProgress.cs:16-18 | the progress is done and the counters are unchanged |
| SftpPaths.GetDirectoryName | BackupUtility.Core/FileManager/SftpFileManager.cs:108-114 | the name is a suffix of the path |
| SftpPaths.NameHasNoSlash | BackupUtility.Core/FileManager/SftpFileManager.cs:108-114 | with a slash past the first character, the name holds no slash |
| SftpPaths.CombinedName | BackupUtility.Core/FileManager/SftpFileManager.cs:108-114 | the name of a non-empty directory combined with a slash-free name is that name |
| SftpPaths.PlainName | BackupUtility.Core/FileManager/SftpFileManager.cs:108-114 | a slash-free path is its own name |
| SftpPaths.TopLevelPathKeepsSlash | BackupUtility.Core/FileManager/SftpFileManager.cs:110-113 | a path whose only slash is its first character is returned whole |
| SftpPaths.TrailingSlashGivesEmptyName | BackupUtility.Core/FileManager/SftpFileManager.cs:109-111 | a path ending in a slash past its first character has the empty name |
| SftpPaths.CombinePathSplits | BackupUtility.Core/FileManager/SftpFileManager.cs:42-44 | slash-free parts are recovered by splitting the combined path |
| SftpPaths.DirectoryNames | BackupUtility.Core/FileManager/SftpFileManager.cs:95-106 | the names listed are never `.` or `..` and are no more than the entries |
| SftpPaths.DirectoryNamesMembership | BackupUtility.Core/FileManager/SftpFileManager.cs:99-102 | a name is listed exactly when some directory entry has it and it is neither `.` nor `..` |
| SftpPaths.OnlyDotEntriesDropped | BackupUtility.Core/FileManager/SftpFileManager.cs:163-165 | the filter drops exactly the `.` and `..` entries: neither is listed, and every other directory entry's name is |
| SftpPaths.FilesOnlyListNoDirectories | BackupUtility.Core/FileManager/SftpFileManager.cs:99-100 | a listing of plain files gives no directories |
| Cli.NewSftpFileManager | BackupUtility.Core/FileManager/SftpFileManager.cs:15-18 | the constructor succeeds exactly when host, user name and password are non-null and the user name is not blank; a blank user name throws `ArgumentException`, a null argument `ArgumentNullException` |
| Cli.CreateFileManager | BackupUtility.CLI/BackupUtilityRunner.cs:125-137 | `Local` gives a local manager; `SFTP` with a null host throws `ArgumentNullException`, with an unknown host gives null, with a known host gives the SFTP manager built from its options or the constructor's exception; any other mode gives null |
| Cli.SourcePathes | BackupUtility.CLI/BackupUtilityRunner.cs:98-101 | there is always at least one source path |
| Cli.CreateTasks | BackupUtility.CLI/BackupUtilityRunner.cs:87-123 | the loop returns exactly every entry's tasks, in order, or null or the exception of the first entry that fails |
| Cli.AddPathTasks | BackupUtility.CLI/BackupUtilityRunner.cs:102-120 | the inner loop appends one task per source path, or gives null at the first empty path |
| Cli.TasksOfStep | BackupUtility.CLI/BackupUtilityRunner.cs:89-121 | one entry's tasks followed by the rest are every remaining entry's tasks |
| Cli.PathTasksSucceedIff | BackupUtility.CLI/BackupUtilityRunner.cs:102-120 | the path tasks exist exactly when no source path is empty and, if there is any path, the destination is not empty; then one task per path |
| Cli.TasksSucceedIff | BackupUtility.CLI/BackupUtilityRunner.cs:87-123 | a list comes back exactly when every entry gives two managers and non-empty paths; its length is the number of source paths |
| Cli.PathTasksShape | BackupUtility.CLI/BackupUtilityRunner.cs:111-119 | the k-th task copies the k-th source path to the destination path with the entry's managers |
| Cli.TasksComeFromEntries | BackupUtility.CLI/BackupUtilityRunner.cs:111-119 | every task has a history depth of 3, non-empty paths, and comes from some entry's source and destination paths |
| Cli.NoBackupsNoTasks | BackupUtility.CLI/BackupUtilityRunner.cs:88-122 | no entries give the empty list |
| Cli.EntryFailureThrows | BackupUtility.CLI/BackupUtilityRunner.cs:89-97 | the exception of the first entry that throws, after ready entries, is the exception of the whole call |
| Cli.NullHostThrows | BackupUtility.CLI/BackupUtilityRunner.cs:128-129 | the first entry whose source is SFTP with a null host makes the whole call throw `ArgumentNullException` |
| Cli.NullDestinationHostThrows | BackupUtility.CLI/BackupUtilityRunner.cs:94-97 | an entry whose source manager is created and whose destination is SFTP with a null host makes the whole call throw `ArgumentNullException` |
| Cli.RejectedSftpOptionsThrow | BackupUtility.CLI/BackupUtilityRunner.cs:129-131 | a known source host whose options the SFTP constructor rejects makes the whole call throw the constructor's exception |

## Left out

- Asynchrony and `Task.WhenAll`: the source directories run one after the other in list order. The files and the subdirectories of a directory run one after the other in an arbitrary order, chosen from the set of names, and every property is proved for every order. The order in which the mock's `Files.Keys` and `Directories.Keys` list them is not represented. With the synchronous mock every sibling still runs and one exception is reported.
- Backup.BackupManager.Valid: requires the source and destination managers to be distinct objects, so every `Dump` property assumes two managers. They exclude the tests' configuration, which passes one mock as both source and destination (BackupUtility.Tests/BackupTests.cs:18-19), and a `Local` to `Local` backup, where both managers address the same disk (BackupUtility.CLI/BackupUtilityRunner.cs:127). The model does not capture a dump whose writes change the tree it is still reading; a backup inside its own source would need an unbounded recursion.
- Backup.BackupManager.Dump: reports the first exception as an `Outcome` value instead of throwing the aggregate exception `Task.WhenAll` builds.
- The mock tree is a value that the manager's field holds and reassigns. The source mutates shared `MockDirectory` objects in place. The mock never shares a node, so no observable behaviour is lost.
- `System.Environment.NewLine` is fixed to the line feed.
- `ITimeManager` is not modelled. The current time is an argument, in whole seconds since the Unix epoch. `BackupProgress.Elapsed` is a tick count.
- MD5, UTF-8 encoding and decoding are not defined here. They are fields of the `Crypto` value, so properties hold for any digest and any codec. `SaveLoadRoundTrip` assumes that decoding undoes encoding on the saved text.
- Null strings are modelled only in the command-line configuration. Elsewhere a path or name is a plain string.
- FileHasher.CachedFileHasher.Save: the key order of the dictionary enumeration is any order of the keys; the contract says only that some order was written.
- FileHasher.CachedFileHasher: the origin hasher is a `DirectFileHasher`, not any `IFileHasher`.
- `DirectFileHasher.ResetFileHash` and `DirectFileHasher.Save` do nothing, so their methods have no contract.
- `LocalFileManager` and the network operations of `SftpFileManager` (connection, listing, reading, writing, retries and exception mapping) are calls into libraries that are not part of this model. Of `SftpFileManager` only the path helpers and the listing filter are modelled.
- SSH.NET is not part of this model. `Cli.NewSftpFileManager` models only the argument checks of `PasswordAuthenticationMethod` and `ConnectionInfo`, as that library documents them: a null host, user name or password throws `ArgumentNullException`, a blank user name `ArgumentException`. The connection itself, and the logger argument, are not modelled.
- Logging, console output and colours (`WriteLineWithColor`, the SFTP logger) are left out.
- `HistoryProvider` is modelled by its converters and its depth. `ConvertFileNameToHistoryDirectoryName` and `ConvertFileNameToVersionedFileName` only apply them, so they carry no contract of their own.
- A null `SftpOptions` value in the dictionary, and null `Pathes` or `Backup` lists, are not modelled.
- The test classes that drive the mock, and the rest of the runner (executing tasks, printing results), are not part of this model.
