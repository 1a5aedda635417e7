/** The configuration-to-task step of `BackupUtilityRunner`: every backup of
    the configuration gets a file manager for its source and one for its
    destination, and one task per source path. */
module Cli {
  import opened Wrappers
  import opened Primitives
  import opened Foreign
  import opened Extensions
  import Text

  /** A `string` of the configuration, which may be null (`None`). */
  type NullableString = Option<string>

  predicate IsNullOrEmpty(s: NullableString)
  {
    s.None? || s.value == ""
  }

  datatype SftpOptions = SftpOptions(host: NullableString, userName: NullableString, password: NullableString)

  /** `FileSystemMode`; a configuration value that names neither member is
      kept as its number. */
  datatype FileSystemMode = Local | SFTP | Undefined(value: int)

  datatype FileSystemOptions = FileSystemOptions(
    path: NullableString,
    pathes: seq<NullableString>,
    mode: FileSystemMode,
    host: NullableString)

  datatype BackupOptions = BackupOptions(from: FileSystemOptions, to: FileSystemOptions)

  /** The parts of `BackupUtilityConfiguration` task creation reads. */
  datatype Configuration = Configuration(sftp: map<string, SftpOptions>, backup: seq<BackupOptions>)

  /** The file manager a task is given: the local file system, or an SFTP
      connection with the credentials of its host entry. */
  datatype FileManager = LocalFileManager | SftpFileManager(host: string, userName: string, password: string)

  datatype BackupTask = BackupTask(
    sourceDir: string,
    destinationDir: string,
    sourceFs: FileManager,
    destinationFs: FileManager,
    historyProvider: HistoryProvider,
    changeValidator: FileChangeValidator)

  /** `Dictionary.TryGetValue(null, ...)` and the SSH.NET constructors
      throw `ArgumentNullException` for a null argument; `ConnectionInfo`
      throws `ArgumentException` for a blank user name. */
  datatype CliError = ArgumentNullException | ArgumentException

  /** What task creation returns: an exception, `null` (`None`), or a list. */
  type Created<T> = Result<Option<T>, CliError>

  /** The constructor `SftpFileManager(host, userName, password, logger)`:
      `new PasswordAuthenticationMethod(userName, password)` encodes the
      password, then checks the user name; `new ConnectionInfo(host,
      userName, ...)` checks the host, then the user name again. A null
      password, user name or host throws `ArgumentNullException`, and an
      empty or whitespace-only user name `ArgumentException`. */
  function NewSftpFileManager(host: NullableString, userName: NullableString, password: NullableString): (r: Result<FileManager, CliError>)
    ensures r.Success? <==> host.Some? && userName.Some? && password.Some? && !Text.IsBlank(userName.value)
    ensures r.Success? ==> r.value == SftpFileManager(host.value, userName.value, password.value)
    ensures r == Failure(ArgumentException) <==>
              host.Some? && userName.Some? && password.Some? && Text.IsBlank(userName.value)
  {
    if password.None? || userName.None? || host.None? then Failure(ArgumentNullException)
    else if Text.IsBlank(userName.value) then Failure(ArgumentException)
    else Success(SftpFileManager(host.value, userName.value, password.value))
  }

  /** `CreateFileManager`: a local manager for `Local`; for `SFTP`, a
      manager with the options of the named host, null for an unknown host
      and an exception for a null one or for options the SFTP manager's
      constructor rejects; null for any other mode. */
  function CreateFileManager(sftpOptions: map<string, SftpOptions>, mode: FileSystemMode, host: NullableString): (r: Created<FileManager>)
    ensures r.Failure? <==>
              mode == SFTP && (host.None? || (host.value in sftpOptions && NewSftpFileManager(
                sftpOptions[host.value].host, sftpOptions[host.value].userName, sftpOptions[host.value].password).Failure?))
    ensures mode == SFTP && host.None? ==> r == Failure(ArgumentNullException)
    ensures r == Success(None) <==> mode.Undefined? || (mode == SFTP && host.Some? && host.value !in sftpOptions)
    ensures r == Success(Some(LocalFileManager)) <==> mode == Local
    ensures mode == SFTP && host.Some? && host.value in sftpOptions ==>
              var o := sftpOptions[host.value];
              match NewSftpFileManager(o.host, o.userName, o.password)
              case Success(m) => r == Success(Some(m))
              case Failure(e) => r == Failure(e)
  {
    match mode
    case Local => Success(Some(LocalFileManager))
    case SFTP =>
      if host.None? then Failure(ArgumentNullException)
      else if host.value in sftpOptions then
        var options := sftpOptions[host.value];
        var m :- NewSftpFileManager(options.host, options.userName, options.password);
        Success(Some(m))
      else Success(None)
    case Undefined(_) => Success(None)
  }

  /** `From.Pathes`, or the single `From.Path` when that list is empty. */
  function SourcePathes(from: FileSystemOptions): (pathes: seq<NullableString>)
    ensures |pathes| >= 1
  {
    if |from.pathes| == 0 then [from.path] else from.pathes
  }

  /** A `BackupTask` for one source path; each gets a history of depth 3. */
  function NewTask(path: string, to: string, sourceFs: FileManager, destFs: FileManager, crypto: Crypto): BackupTask
  {
    BackupTask(path, to, sourceFs, destFs, DefaultHistoryProvider(3), FileChangeValidator(crypto))
  }

  /** One `BackupTask` per source path, in order, or `None` at the first empty
      source path or when the destination path is empty. */
  function PathTasks(pathes: seq<NullableString>, to: NullableString, sourceFs: FileManager, destFs: FileManager, crypto: Crypto): Option<seq<BackupTask>>
  {
    if |pathes| == 0 then Some([])
    else if IsNullOrEmpty(pathes[0]) || IsNullOrEmpty(to) then None
    else match PathTasks(pathes[1..], to, sourceFs, destFs, crypto)
      case Some(rest) => Some([NewTask(pathes[0].value, to.value, sourceFs, destFs, crypto)] + rest)
      case None => None
  }

  /** The backup tasks one backup entry yields. */
  function BackupTasks(sftp: map<string, SftpOptions>, backup: BackupOptions, crypto: Crypto): Created<seq<BackupTask>>
  {
    var sourceFs :- CreateFileManager(sftp, backup.from.mode, backup.from.host);
    if sourceFs.None? then Success(None)
    else
      var destFs :- CreateFileManager(sftp, backup.to.mode, backup.to.host);
      if destFs.None? then Success(None)
      else Success(PathTasks(SourcePathes(backup.from), backup.to.path, sourceFs.value, destFs.value, crypto))
  }

  /** The backup tasks of all backup entries, in order; the first entry that
      throws or gives null decides the result, and later entries are not
      looked at. */
  function TasksOf(sftp: map<string, SftpOptions>, backups: seq<BackupOptions>, crypto: Crypto): Created<seq<BackupTask>>
  {
    if |backups| == 0 then Success(Some([]))
    else
      var first :- BackupTasks(sftp, backups[0], crypto);
      if first.None? then Success(None)
      else
        var rest :- TasksOf(sftp, backups[1..], crypto);
        if rest.None? then Success(None) else Success(Some(first.value + rest.value))
  }

  /** `tasks` in front of the list of `r`, if `r` has one. */
  function Prefixed(tasks: seq<BackupTask>, r: Created<seq<BackupTask>>): Created<seq<BackupTask>>
  {
    if r.Success? && r.value.Some? then Success(Some(tasks + r.value.value)) else r
  }

  /** `CreateTasks`; `crypto` stands for what `new FileChangeValidator()`
      digests with. */
  method CreateTasks(config: Configuration, crypto: Crypto) returns (r: Created<seq<BackupTask>>)
    ensures r == TasksOf(config.sftp, config.backup, crypto)
  {
    var tasks: seq<BackupTask> := [];
    assert config.backup[0..] == config.backup;
    assert TasksOf(config.sftp, config.backup, crypto).Success? && TasksOf(config.sftp, config.backup, crypto).value.Some? ==>
             [] + TasksOf(config.sftp, config.backup, crypto).value.value == TasksOf(config.sftp, config.backup, crypto).value.value;
    for i := 0 to |config.backup|
      invariant TasksOf(config.sftp, config.backup, crypto) == Prefixed(tasks, TasksOf(config.sftp, config.backup[i..], crypto))
    {
      var backup := config.backup[i];
      assert config.backup[i..][0] == backup && config.backup[i..][1..] == config.backup[i + 1..];
      var sourceFs :- CreateFileManager(config.sftp, backup.from.mode, backup.from.host);
      if sourceFs.None? {
        return Success(None);
      }
      var destFs :- CreateFileManager(config.sftp, backup.to.mode, backup.to.host);
      if destFs.None? {
        return Success(None);
      }
      var fromPathes := backup.from.pathes;
      if |fromPathes| == 0 {
        fromPathes := [backup.from.path];
      }
      var added := AddPathTasks(tasks, fromPathes, backup.to.path, sourceFs.value, destFs.value, crypto);
      if added.None? {
        return Success(None);
      }
      assert fromPathes == SourcePathes(backup.from);
      TasksOfStep(config.sftp, config.backup, i, crypto, tasks);
      tasks := added.value;
    }
    assert TasksOf(config.sftp, config.backup[|config.backup|..], crypto) == Success(Some([]));
    assert tasks + [] == tasks;
    r := Success(Some(tasks));
  }

  /** One backup entry of `CreateTasks`' outer loop: its tasks move from
      the remaining work to the list built so far. */
  lemma TasksOfStep(sftp: map<string, SftpOptions>, backups: seq<BackupOptions>, i: nat, crypto: Crypto, done: seq<BackupTask>)
    requires i < |backups|
    ensures var first := BackupTasks(sftp, backups[i], crypto);
      first.Success? && first.value.Some? ==>
        Prefixed(done, TasksOf(sftp, backups[i..], crypto)) == Prefixed(done + first.value.value, TasksOf(sftp, backups[i + 1..], crypto))
    ensures BackupTasks(sftp, backups[i], crypto) == Success(None) ==> TasksOf(sftp, backups[i..], crypto) == Success(None)
  {
    assert backups[i..][0] == backups[i] && backups[i..][1..] == backups[i + 1..];
    var first := BackupTasks(sftp, backups[i], crypto);
    var later := TasksOf(sftp, backups[i + 1..], crypto);
    if first.Success? && first.value.Some? && later.Success? && later.value.Some? {
      assert done + (first.value.value + later.value.value) == (done + first.value.value) + later.value.value;
    }
  }

  /** The inner loop of `CreateTasks`: appends a task for every source
      path to `tasks`, or gives `None` (`CreateTasks` returns null) at the
      first empty source path or when the destination path is empty. */
  method AddPathTasks(tasks: seq<BackupTask>, fromPathes: seq<NullableString>, to: NullableString,
                      sourceFs: FileManager, destFs: FileManager, crypto: Crypto)
    returns (r: Option<seq<BackupTask>>)
    ensures r == PrefixedPathes(tasks, PathTasks(fromPathes, to, sourceFs, destFs, crypto))
  {
    var added := tasks;
    assert fromPathes[0..] == fromPathes && added[|tasks|..] == [];
    ghost var all := PathTasks(fromPathes, to, sourceFs, destFs, crypto);
    assert all.Some? ==> [] + all.value == all.value;
    for j := 0 to |fromPathes|
      invariant |tasks| <= |added| && added[..|tasks|] == tasks
      invariant all == PrefixedPathes(added[|tasks|..], PathTasks(fromPathes[j..], to, sourceFs, destFs, crypto))
    {
      var path := fromPathes[j];
      assert fromPathes[j..][0] == path && fromPathes[j..][1..] == fromPathes[j + 1..];
      if IsNullOrEmpty(path) {
        return None;
      }
      if IsNullOrEmpty(to) {
        return None;
      }
      var task := NewTask(path.value, to.value, sourceFs, destFs, crypto);
      assert (added + [task])[|tasks|..] == added[|tasks|..] + [task];
      PrefixedPathesStep(added[|tasks|..], fromPathes[j..], to, sourceFs, destFs, crypto);
      added := added + [task];
    }
    assert PathTasks(fromPathes[|fromPathes|..], to, sourceFs, destFs, crypto) == Some([]);
    assert added[|tasks|..] + [] == added[|tasks|..];
    assert added == tasks + added[|tasks|..];
    r := Some(added);
  }

  /** `tasks` in front of the list of `o`, if it has one. */
  function PrefixedPathes(tasks: seq<BackupTask>, o: Option<seq<BackupTask>>): Option<seq<BackupTask>>
  {
    if o.Some? then Some(tasks + o.value) else None
  }

  /** Moving the first path's task into the prefix. */
  lemma PrefixedPathesStep(done: seq<BackupTask>, pathes: seq<NullableString>, to: NullableString,
                           sourceFs: FileManager, destFs: FileManager, crypto: Crypto)
    requires |pathes| > 0 && !IsNullOrEmpty(pathes[0]) && !IsNullOrEmpty(to)
    ensures PrefixedPathes(done, PathTasks(pathes, to, sourceFs, destFs, crypto)) ==
            PrefixedPathes(done + [NewTask(pathes[0].value, to.value, sourceFs, destFs, crypto)],
                           PathTasks(pathes[1..], to, sourceFs, destFs, crypto))
  {
    var task := NewTask(pathes[0].value, to.value, sourceFs, destFs, crypto);
    var later := PathTasks(pathes[1..], to, sourceFs, destFs, crypto);
    if later.Some? {
      Text.ConcatAssociative(done, [task], later.value);
    }
  }

  // What the created tasks are

  predicate Creates(r: Created<FileManager>)
  {
    r.Success? && r.value.Some?
  }

  /** A backup entry that yields tasks: both managers can be created and no
      source path nor the destination path is empty. */
  predicate Ready(sftp: map<string, SftpOptions>, backup: BackupOptions)
  {
    Creates(CreateFileManager(sftp, backup.from.mode, backup.from.host)) &&
    Creates(CreateFileManager(sftp, backup.to.mode, backup.to.host)) &&
    !IsNullOrEmpty(backup.to.path) &&
    forall k :: 0 <= k < |SourcePathes(backup.from)| ==> !IsNullOrEmpty(SourcePathes(backup.from)[k])
  }

  /** The number of tasks a ready configuration yields: one per source path. */
  function TaskCount(backups: seq<BackupOptions>): nat
  {
    if |backups| == 0 then 0 else |SourcePathes(backups[0].from)| + TaskCount(backups[1..])
  }

  lemma {:induction false} PathTasksSucceedIff(pathes: seq<NullableString>, to: NullableString, sourceFs: FileManager, destFs: FileManager, crypto: Crypto)
    ensures PathTasks(pathes, to, sourceFs, destFs, crypto).Some? <==>
              (|pathes| == 0 || !IsNullOrEmpty(to)) && forall k :: 0 <= k < |pathes| ==> !IsNullOrEmpty(pathes[k])
    ensures PathTasks(pathes, to, sourceFs, destFs, crypto).Some? ==> |PathTasks(pathes, to, sourceFs, destFs, crypto).value| == |pathes|
  {
    if |pathes| > 0 {
      PathTasksSucceedIff(pathes[1..], to, sourceFs, destFs, crypto);
      assert forall k :: 1 <= k < |pathes| ==> pathes[k] == pathes[1..][k - 1];
    }
  }

  /** Task creation neither throws nor gives null exactly when every backup
      entry is ready, and then there is one task per source path. */
  lemma {:induction false} TasksSucceedIff(sftp: map<string, SftpOptions>, backups: seq<BackupOptions>, crypto: Crypto)
    ensures TasksOf(sftp, backups, crypto).Success? && TasksOf(sftp, backups, crypto).value.Some? <==>
              forall i :: 0 <= i < |backups| ==> Ready(sftp, backups[i])
    ensures TasksOf(sftp, backups, crypto).Success? && TasksOf(sftp, backups, crypto).value.Some? ==>
              |TasksOf(sftp, backups, crypto).value.value| == TaskCount(backups)
  {
    if |backups| > 0 {
      var b := backups[0];
      TasksSucceedIff(sftp, backups[1..], crypto);
      var src := CreateFileManager(sftp, b.from.mode, b.from.host);
      var dst := CreateFileManager(sftp, b.to.mode, b.to.host);
      if src.Success? && src.value.Some? && dst.Success? && dst.value.Some? {
        PathTasksSucceedIff(SourcePathes(b.from), b.to.path, src.value.value, dst.value.value, crypto);
      }
      assert forall i :: 1 <= i < |backups| ==> backups[i] == backups[1..][i - 1];
    }
  }

  /** `t` is a task made for the source path `path`: it copies that non-empty
      path to the non-empty destination path `to` with the entry's file
      managers and a history of depth 3. */
  predicate MadeFrom(t: BackupTask, path: NullableString, to: NullableString, sourceFs: FileManager, destFs: FileManager)
  {
    path == Some(t.sourceDir) && t.sourceDir != "" &&
    to == Some(t.destinationDir) && t.destinationDir != "" &&
    t.sourceFs == sourceFs && t.destinationFs == destFs && t.historyProvider.depth == 3
  }

  /** A backup entry yields one task per source path, made from that path,
      in order. */
  lemma {:induction false} PathTasksShape(pathes: seq<NullableString>, to: NullableString, sourceFs: FileManager, destFs: FileManager, crypto: Crypto)
    requires PathTasks(pathes, to, sourceFs, destFs, crypto).Some?
    ensures var ts := PathTasks(pathes, to, sourceFs, destFs, crypto).value;
      |ts| == |pathes| && forall k :: 0 <= k < |ts| ==> MadeFrom(ts[k], pathes[k], to, sourceFs, destFs)
  {
    if |pathes| > 0 {
      PathTasksShape(pathes[1..], to, sourceFs, destFs, crypto);
      var rest := PathTasks(pathes[1..], to, sourceFs, destFs, crypto).value;
      var ts := PathTasks(pathes, to, sourceFs, destFs, crypto).value;
      assert ts == [NewTask(pathes[0].value, to.value, sourceFs, destFs, crypto)] + rest;
      assert MadeFrom(ts[0], pathes[0], to, sourceFs, destFs);
      forall k | 1 <= k < |ts|
        ensures MadeFrom(ts[k], pathes[k], to, sourceFs, destFs)
      {
        assert ts[k] == rest[k - 1] && pathes[k] == pathes[1..][k - 1];
      }
    }
  }

  /** Every task comes from a backup entry: its source is one of the
      entry's source paths and its destination is the entry's destination
      path. */
  lemma {:induction false} TasksComeFromEntries(sftp: map<string, SftpOptions>, backups: seq<BackupOptions>, crypto: Crypto)
    requires TasksOf(sftp, backups, crypto).Success? && TasksOf(sftp, backups, crypto).value.Some?
    ensures var ts := TasksOf(sftp, backups, crypto).value.value;
      forall t :: t in ts ==>
        t.historyProvider.depth == 3 && t.sourceDir != "" && t.destinationDir != "" &&
        exists i :: 0 <= i < |backups| && backups[i].to.path == Some(t.destinationDir) &&
                    Some(t.sourceDir) in SourcePathes(backups[i].from)
  {
    if |backups| > 0 {
      var b := backups[0];
      var src := CreateFileManager(sftp, b.from.mode, b.from.host);
      var dst := CreateFileManager(sftp, b.to.mode, b.to.host);
      var first := PathTasks(SourcePathes(b.from), b.to.path, src.value.value, dst.value.value, crypto);
      PathTasksShape(SourcePathes(b.from), b.to.path, src.value.value, dst.value.value, crypto);
      TasksComeFromEntries(sftp, backups[1..], crypto);
      var ts := TasksOf(sftp, backups, crypto).value.value;
      var rest := TasksOf(sftp, backups[1..], crypto).value.value;
      assert ts == first.value + rest;
      forall t | t in ts
        ensures exists i :: 0 <= i < |backups| && backups[i].to.path == Some(t.destinationDir) &&
                            Some(t.sourceDir) in SourcePathes(backups[i].from)
      {
        if t in first.value {
          var k :| 0 <= k < |first.value| && first.value[k] == t;
          assert MadeFrom(t, SourcePathes(b.from)[k], b.to.path, src.value.value, dst.value.value);
        } else {
          var i :| 0 <= i < |backups[1..]| && backups[1..][i].to.path == Some(t.destinationDir) &&
                   Some(t.sourceDir) in SourcePathes(backups[1..][i].from);
          assert backups[i + 1] == backups[1..][i];
        }
      }
    }
  }

  /** A configuration without backups yields an empty list. */
  lemma NoBackupsNoTasks(sftp: map<string, SftpOptions>, crypto: Crypto)
    ensures TasksOf(sftp, [], crypto) == Success(Some([]))
  {
  }

  /** An entry that throws stops task creation with its exception,
      whatever follows it, once the entries before it are ready. */
  lemma {:induction false} EntryFailureThrows(sftp: map<string, SftpOptions>, backups: seq<BackupOptions>, crypto: Crypto,
                                              i: nat, e: CliError)
    requires i < |backups| && BackupTasks(sftp, backups[i], crypto) == Failure(e)
    requires forall j :: 0 <= j < i ==> Ready(sftp, backups[j])
    ensures TasksOf(sftp, backups, crypto) == Failure(e)
    decreases i
  {
    if i > 0 {
      var b := backups[0];
      var src := CreateFileManager(sftp, b.from.mode, b.from.host);
      var dst := CreateFileManager(sftp, b.to.mode, b.to.host);
      assert Ready(sftp, backups[0]);
      PathTasksSucceedIff(SourcePathes(b.from), b.to.path, src.value.value, dst.value.value, crypto);
      assert forall j :: 0 <= j < i - 1 ==> backups[1..][j] == backups[j + 1];
      EntryFailureThrows(sftp, backups[1..], crypto, i - 1, e);
    }
  }

  /** An entry whose source host is null stops task creation with the
      exception, whatever follows it, once the entries before it are ready. */
  lemma NullHostThrows(sftp: map<string, SftpOptions>, backups: seq<BackupOptions>, crypto: Crypto, i: nat)
    requires i < |backups| && backups[i].from.mode == SFTP && backups[i].from.host.None?
    requires forall j :: 0 <= j < i ==> Ready(sftp, backups[j])
    ensures TasksOf(sftp, backups, crypto) == Failure(ArgumentNullException)
  {
    EntryFailureThrows(sftp, backups, crypto, i, ArgumentNullException);
  }

  /** The same for a null destination host, once the entry's source
      manager has been created. */
  lemma NullDestinationHostThrows(sftp: map<string, SftpOptions>, backups: seq<BackupOptions>, crypto: Crypto, i: nat)
    requires i < |backups| && backups[i].to.mode == SFTP && backups[i].to.host.None?
    requires Creates(CreateFileManager(sftp, backups[i].from.mode, backups[i].from.host))
    requires forall j :: 0 <= j < i ==> Ready(sftp, backups[j])
    ensures TasksOf(sftp, backups, crypto) == Failure(ArgumentNullException)
  {
    EntryFailureThrows(sftp, backups, crypto, i, ArgumentNullException);
  }

  /** A known SFTP host whose options the SFTP manager's constructor
      rejects stops task creation with that constructor's exception. */
  lemma RejectedSftpOptionsThrow(sftp: map<string, SftpOptions>, backups: seq<BackupOptions>, crypto: Crypto, i: nat)
    requires i < |backups| && backups[i].from.mode == SFTP && backups[i].from.host.Some?
    requires backups[i].from.host.value in sftp
    requires var o := sftp[backups[i].from.host.value]; NewSftpFileManager(o.host, o.userName, o.password).Failure?
    requires forall j :: 0 <= j < i ==> Ready(sftp, backups[j])
    ensures var o := sftp[backups[i].from.host.value];
      TasksOf(sftp, backups, crypto) == Failure(NewSftpFileManager(o.host, o.userName, o.password).error)
  {
    var o := sftp[backups[i].from.host.value];
    EntryFailureThrows(sftp, backups, crypto, i, NewSftpFileManager(o.host, o.userName, o.password).error);
  }
}
