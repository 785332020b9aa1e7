/**
 * The transactional file writer (src/utils/safeWriteJson.ts): lock, temporary
 * file, backup, commit, cleanup, and rollback, with a failure possible at
 * every file operation.
 */
module SafeWrite {
  import opened Text

  /** A directory: what each path holds. */
  type Files = map<string, string>

  /** How an operation fails: with the code ENOENT, or with any other error. */
  datatype Error = NotFound | OtherError(id: nat)

  type Fault = Option<Error>

  /** An error other than ENOENT. */
  predicate IsOther(error: Option<Error>) {
    error.Some? && error.value != NotFound
  }

  // ---------------------------------------------------------------- file operations

  function AccessError(files: Files, path: string, fault: Fault): Option<Error> {
    if fault.Some? then fault else if path in files then None else Some(NotFound)
  }

  function Move(files: Files, from: string, to: string): Files
    requires from in files
  {
    (files - {from})[to := files[from]]
  }

  function RenameFiles(files: Files, from: string, to: string, fault: Fault): Files {
    if AccessError(files, from, fault).None? then Move(files, from, to) else files
  }

  function UnlinkFiles(files: Files, path: string, fault: Fault): Files {
    if AccessError(files, path, fault).None? then files - {path} else files
  }

  /** A failed write may leave part of the data behind. */
  function WriteFiles(files: Files, path: string, data: string, fault: Fault, partial: Option<string>): Files {
    if fault.None? then files[path := data]
    else if partial.Some? then files[path := partial.value]
    else files
  }

  /** The faults of one call, one for each operation it may perform. */
  datatype Faults = Faults(
    directory: Fault, lock: Fault, write: Fault, partial: Option<string>, access: Fault, backup: Fault, commit: Fault,
    dropBackup: Fault, rollback: Fault, dropTemp: Fault, dropOrphan: Fault, release: Fault)
  {
    function Count(): nat {
      One(directory) + One(lock) + One(write) + One(access) + One(backup) + One(commit)
      + One(dropBackup) + One(rollback) + One(dropTemp) + One(dropOrphan) + One(release)
    }
  }

  function One(fault: Fault): nat {
    if fault.Some? then 1 else 0
  }

  /** The three names of a call; the two temporary ones are new to the directory. */
  datatype Names = Names(target: string, temp: string, backup: string)
  {
    predicate Fresh(files: Files) {
      temp !in files && backup !in files && temp != backup && temp != target && backup != target
    }
  }

  // ---------------------------------------------------------------- the protocol, step by step

  /** The next operation of a writer that holds the lock. */
  datatype Pc = WriteTemp | CheckTarget | BackUp | Commit | DropBackup | Rollback | DropTemp | DropOrphan | Release | Done
  {
    function Rank(): nat {
      match this
      case WriteTemp => 9
      case CheckTarget => 8
      case BackUp => 7
      case Commit => 6
      case DropBackup => 5
      case Rollback => 4
      case DropTemp => 3
      case DropOrphan => 2
      case Release => 1
      case Done => 0
    }
  }

  /** `backupSet` says that a backup path is recorded, `failed` that the call will throw. */
  datatype Writer = Writer(pc: Pc, names: Names, data: string, backupSet: bool, failed: bool)

  function Start(names: Names, data: string): Writer {
    Writer(WriteTemp, names, data, false, false)
  }

  /** Where an error leads: the catch block. */
  function Caught(w: Writer): Writer {
    w.(pc := if w.backupSet then Rollback else DropTemp, failed := true)
  }

  /** One operation: the writer and the directory after it. */
  function Act(w: Writer, files: Files, fault: Fault, partial: Option<string>): (r: (Writer, Files))
    requires w.pc != Done
    ensures r.0.pc.Rank() < w.pc.Rank()
  {
    var n := w.names;
    match w.pc
    case WriteTemp =>
      (if fault.None? then w.(pc := CheckTarget) else Caught(w), WriteFiles(files, n.temp, w.data, fault, partial))
    case CheckTarget =>
      (match AccessError(files, n.target, fault)
       case None => w.(pc := BackUp, backupSet := true)
       case Some(NotFound) => w.(pc := Commit)
       case Some(OtherError(_)) => Caught(w),
       files)
    case BackUp =>
      (if IsOther(AccessError(files, n.target, fault)) then Caught(w) else w.(pc := Commit),
       RenameFiles(files, n.target, n.backup, fault))
    case Commit =>
      (if AccessError(files, n.temp, fault).Some? then Caught(w) else w.(pc := if w.backupSet then DropBackup else Release),
       RenameFiles(files, n.temp, n.target, fault))
    case DropBackup =>
      (w.(pc := Release), UnlinkFiles(files, n.backup, fault))
    case Rollback =>
      (w.(pc := DropTemp, backupSet := AccessError(files, n.backup, fault).Some?), RenameFiles(files, n.backup, n.target, fault))
    case DropTemp =>
      (w.(pc := if w.backupSet then DropOrphan else Release), UnlinkFiles(files, n.temp, fault))
    case DropOrphan =>
      (w.(pc := Release), UnlinkFiles(files, n.backup, fault))
    case Release =>
      (w.(pc := Done), files)
  }

  function FaultAt(f: Faults, pc: Pc): Fault {
    match pc
    case WriteTemp => f.write
    case CheckTarget => f.access
    case BackUp => f.backup
    case Commit => f.commit
    case DropBackup => f.dropBackup
    case Rollback => f.rollback
    case DropTemp => f.dropTemp
    case DropOrphan => f.dropOrphan
    case Release => f.release
    case Done => None
  }

  /** A writer running on its own to the end. */
  function Solo(w: Writer, files: Files, f: Faults): (Writer, Files)
    decreases w.pc.Rank()
  {
    if w.pc == Done then (w, files)
    else var next := Act(w, files, FaultAt(f, w.pc), f.partial); Solo(next.0, next.1, f)
  }

  lemma SoloStep(w: Writer, files: Files, f: Faults)
    requires w.pc != Done
    ensures var next := Act(w, files, FaultAt(f, w.pc), f.partial);
      Solo(w, files, f) == Solo(next.0, next.1, f)
  {
  }

  /** A whole call: the directory after it, and whether it throws. */
  function Call(files: Files, names: Names, data: string, f: Faults): (Files, bool) {
    if f.directory.Some? || f.lock.Some? then (files, true)
    else var end := Solo(Start(names, data), files, f); (end.1, end.0.failed)
  }

  /** The error of the first operation that the call cannot pass over, before its commit. */
  function StagingError(files: Files, target: string, f: Faults): Option<Error> {
    if f.write.Some? then f.write
    else
      match AccessError(files, target, f.access)
      case Some(error) => if error == NotFound then None else Some(error)
      case None => if IsOther(f.backup) then f.backup else None
  }

  function FirstError(files: Files, target: string, f: Faults): Option<Error> {
    if f.directory.Some? then f.directory
    else if f.lock.Some? then f.lock
    else if StagingError(files, target, f).Some? then StagingError(files, target, f)
    else f.commit
  }

  // ---------------------------------------------------------------- the writer

  class Disk {
    var files: Files
    var locked: bool

    constructor (initial: Files)
      ensures files == initial && !locked
    {
      files := initial;
      locked := false;
    }

    method Access(path: string, fault: Fault) returns (error: Option<Error>)
      ensures error.None? <==> fault.None? && path in files
      ensures fault.Some? ==> error == fault
      ensures fault.None? && path !in files ==> error == Some(NotFound)
    {
      error := if fault.Some? then fault else if path in files then None else Some(NotFound);
    }

    method Rename(from: string, to: string, fault: Fault) returns (error: Option<Error>)
      modifies this`files
      ensures error == AccessError(old(files), from, fault) && files == RenameFiles(old(files), from, to, fault)
    {
      error := Access(from, fault);
      if error.None? {
        var content := files[from];
        files := files - {from};
        files := files[to := content];
      }
    }

    method Unlink(path: string, fault: Fault) returns (error: Option<Error>)
      modifies this`files
      ensures error == AccessError(old(files), path, fault) && files == UnlinkFiles(old(files), path, fault)
    {
      error := Access(path, fault);
      if error.None? {
        files := files - {path};
      }
    }

    method Write(path: string, data: string, fault: Fault, partial: Option<string>) returns (error: Option<Error>)
      modifies this`files
      ensures error == fault && files == WriteFiles(old(files), path, data, fault, partial)
    {
      error := fault;
      if fault.None? {
        files := files[path := data];
      } else if partial.Some? {
        files := files[path := partial.value];
      }
    }

    /**
     * The call itself. `json` is the value's serialisation when the call is made, if it has
     * one; `streamed` is what streaming the live object comes to while it is being written.
     * What is thrown is the first error, never one of the rollback or the cleanup.
     */
    method SafeWriteJson(names: Names, json: Option<string>, snapshot: bool, streamed: string, f: Faults) returns (thrown: Option<Error>)
      requires !locked
      modifies this
      ensures (files, thrown.Some?) == Call(old(files), names, if snapshot && json.Some? then json.value else streamed, f)
      ensures names.Fresh(old(files)) ==> thrown == FirstError(old(files), names.target, f)
      ensures locked <==> f.directory.None? && f.lock.None? && f.release.Some?
    {
      var dataToWrite := if snapshot && json.Some? then json.value else streamed;
      if f.directory.Some? {
        return f.directory;
      }
      if f.lock.Some? {
        return f.lock;
      }
      locked := true;
      ghost var end := Solo(Start(names, dataToWrite), files, f);

      var originalError, actualTempBackupFilePath, w := StageAndBackUp(names, dataToWrite, f);
      if originalError.None? {
        SoloStep(w, files, f);
        w := Act(w, files, f.commit, f.partial).0;
        originalError := Rename(names.temp, names.target, f.commit);
      }
      assert end == Solo(w, files, f);
      if originalError.None? {
        if actualTempBackupFilePath.Some? {
          SoloStep(w, files, f);
          w := Act(w, files, f.dropBackup, f.partial).0;
          var unlinkBackupError := Unlink(actualTempBackupFilePath.value, f.dropBackup);
          if unlinkBackupError.None? {
            actualTempBackupFilePath := None;
          }
        }
        SoloEnds(w, files, f);
      } else {
        RollBack(w, names.target, names.temp, actualTempBackupFilePath, f);
      }
      if f.release.None? {
        locked := false;
      }
      thrown := originalError;
    }

    /** The first two steps of the try block: the temporary file, and the backup of an existing target. */
    method StageAndBackUp(names: Names, dataToWrite: string, f: Faults)
      returns (originalError: Option<Error>, actualTempBackupFilePath: Option<string>, ghost w: Writer)
      modifies this`files
      ensures Solo(w, files, f) == Solo(Start(names, dataToWrite), old(files), f)
      ensures w.names == names && actualTempBackupFilePath == (if w.backupSet then Some(names.backup) else None)
      ensures w.failed <==> originalError.Some?
      ensures names.Fresh(old(files)) ==>
        originalError == StagingError(old(files), names.target, f) && (originalError.None? ==> names.temp in files)
      ensures w.pc == if w.failed then Caught(w).pc else Commit
    {
      actualTempBackupFilePath := None;
      w := Start(names, dataToWrite);
      SoloStep(w, files, f);
      w := Act(w, files, f.write, f.partial).0;
      originalError := Write(names.temp, dataToWrite, f.write, f.partial);
      if originalError.Some? {
        return;
      }
      SoloStep(w, files, f);
      w := Act(w, files, f.access, f.partial).0;
      var accessError := Access(names.target, f.access);
      if accessError.None? {
        actualTempBackupFilePath := Some(names.backup);
        SoloStep(w, files, f);
        w := Act(w, files, f.backup, f.partial).0;
        accessError := Rename(names.target, names.backup, f.backup);
      }
      if accessError.Some? && accessError.value != NotFound {
        originalError := accessError;
      }
    }

    /** The catch block, entered by the writer `w`. */
    method RollBack(ghost w: Writer, target: string, tempPath: string, backupPath: Option<string>, f: Faults)
      requires target == w.names.target && w.pc == (if w.backupSet then Rollback else DropTemp)
      requires tempPath == w.names.temp && backupPath == if w.backupSet then Some(w.names.backup) else None
      modifies this`files
      ensures files == Solo(w, old(files), f).1
      ensures Solo(w, old(files), f).0.failed == w.failed
    {
      var actualTempBackupFilePath := backupPath;
      ghost var end, v := Solo(w, files, f), w;
      if backupPath.Some? {
        SoloStep(v, files, f);
        v := Act(v, files, f.rollback, f.partial).0;
        var rollbackError := Rename(backupPath.value, target, f.rollback);
        if rollbackError.None? {
          actualTempBackupFilePath := None;
        }
      }
      assert end == Solo(v, files, f);
      FromDropTemp(v, files, f);
      var cleanupError := Unlink(tempPath, f.dropTemp);
      if actualTempBackupFilePath.Some? {
        cleanupError := Unlink(actualTempBackupFilePath.value, f.dropOrphan);
      }
    }
  }

  // ---------------------------------------------------------------- the outcome of a call, by cases

  /** Whether the existing target was moved out of the way. */
  predicate Moved(files: Files, target: string, f: Faults) {
    target in files && f.access.None? && f.backup.None?
  }

  /** Whether the call gets as far as its commit step. */
  predicate ReachesCommit(files: Files, target: string, f: Faults) {
    f.directory.None? && f.lock.None? && f.write.None? &&
    match AccessError(files, target, f.access)
    case Some(error) => error == NotFound
    case None => !IsOther(f.backup)
  }

  predicate Commits(files: Files, target: string, f: Faults) {
    ReachesCommit(files, target, f) && f.commit.None?
  }

  /** What a call that does not commit leaves under the temporary name. */
  function Leftover(data: string, f: Faults): Option<string> {
    if f.dropTemp.None? then None else if f.write.None? then Some(data) else f.partial
  }

  function AddIf(files: Files, path: string, content: Option<string>): Files {
    if content.Some? then files[path := content.value] else files
  }

  /** The directory after a call, by which operations fail. */
  function Outcome(files: Files, names: Names, data: string, f: Faults): Files {
    var t := names.target;
    if f.directory.Some? || f.lock.Some? then files
    else if Commits(files, t, f) then
      AddIf(files[t := data], names.backup, if Moved(files, t, f) && f.dropBackup.Some? then Some(files[t]) else None)
    else
      var stranded := ReachesCommit(files, t, f) && Moved(files, t, f) && f.rollback.Some?;
      var kept := if !stranded then files
                  else AddIf(files - {t}, names.backup, if f.dropOrphan.Some? then Some(files[t]) else None);
      AddIf(kept, names.temp, Leftover(data, f))
  }

  /** The protocol, run step by step, comes to exactly these cases. */
  lemma CallOutcome(files: Files, names: Names, data: string, f: Faults)
    requires names.Fresh(files)
    ensures Call(files, names, data, f) == (Outcome(files, names, data, f), !Commits(files, names.target, f))
  {
    if f.directory.None? && f.lock.None? {
      var w, n := Start(names, data), names;
      SoloStep(w, files, f);
      if f.write.Some? {
        if f.partial.Some? { DropPut(files, n.temp, f.partial.value); }
        FromDropTemp(Caught(w), WriteFiles(files, n.temp, data, f.write, f.partial), f);
      } else {
        var written := files[n.temp := data];
        var checked := Act(w.(pc := CheckTarget), written, f.access, f.partial).0;
        DropPut(files, n.temp, data);
        SoloStep(w.(pc := CheckTarget), written, f);
        if checked.pc == DropTemp {
          FromDropTemp(checked, written, f);
        } else if checked.pc == Commit {
          FromCommit(files, checked, written, f);
        } else {
          assert n.target in files && f.access.None?;
          FromBackUp(files, checked, written, f);
        }
      }
    }
  }

  lemma DropPut(files: Files, path: string, content: string)
    requires path !in files
    ensures files[path := content] - {path} == files
  {
  }

  lemma FromBackUp(files: Files, w: Writer, written: Files, f: Faults)
    requires w.names.Fresh(files) && written == files[w.names.temp := w.data] && w.names.target in files
    requires w.pc == BackUp && w.backupSet && !w.failed && f.directory.None? && f.lock.None? && f.write.None? && f.access.None?
    ensures Solo(w, written, f).1 == Outcome(files, w.names, w.data, f)
    ensures Solo(w, written, f).0.failed == !Commits(files, w.names.target, f)
  {
    var next := Act(w, written, f.backup, f.partial);
    if next.0.pc == Commit {
      FromCommit(files, next.0, next.1, f);
    } else {
      FromRollback(next.0, written, f);
    }
  }

  lemma FromCommit(files: Files, w: Writer, ready: Files, f: Faults)
    requires w.names.Fresh(files) && w.pc == Commit && !w.failed && ReachesCommit(files, w.names.target, f)
    requires w.backupSet <==> w.names.target in files && f.access.None?
    requires var written := files[w.names.temp := w.data];
      ready == if Moved(files, w.names.target, f) then Move(written, w.names.target, w.names.backup) else written
    ensures Solo(w, ready, f).1 == Outcome(files, w.names, w.data, f)
    ensures Solo(w, ready, f).0.failed == !Commits(files, w.names.target, f)
  {
    var next := Act(w, ready, f.commit, f.partial);
    SoloStep(w, ready, f);
    if f.commit.Some? {
      CommitFails(files, w, ready, f);
    } else if w.backupSet {
      var dropped := Act(next.0, next.1, f.dropBackup, f.partial);
      SoloStep(next.0, next.1, f);
      SoloEnds(dropped.0, dropped.1, f);
    } else {
      SoloEnds(next.0, next.1, f);
    }
  }

  lemma CommitFails(files: Files, w: Writer, ready: Files, f: Faults)
    requires w.names.Fresh(files) && ReachesCommit(files, w.names.target, f) && f.commit.Some?
    requires w.backupSet <==> w.names.target in files && f.access.None?
    requires var written := files[w.names.temp := w.data];
      ready == if Moved(files, w.names.target, f) then Move(written, w.names.target, w.names.backup) else written
    ensures Solo(Caught(w), ready, f).1 == Outcome(files, w.names, w.data, f) && Solo(Caught(w), ready, f).0.failed
  {
    DropPut(files, w.names.temp, w.data);
    if w.backupSet { FromRollback(Caught(w), ready, f); } else { FromDropTemp(Caught(w), ready, f); }
  }

  lemma FromRollback(w: Writer, files: Files, f: Faults)
    requires w.pc == Rollback && w.backupSet
    requires w.names.temp != w.names.backup && w.names.target !in {w.names.temp, w.names.backup}
    ensures Solo(w, files, f).0.failed == w.failed
    ensures var n := w.names;
      Solo(w, files, f).1 ==
        if n.backup in files && f.rollback.None? then UnlinkFiles(Move(files, n.backup, n.target), n.temp, f.dropTemp)
        else UnlinkFiles(UnlinkFiles(files, n.temp, f.dropTemp), n.backup, f.dropOrphan)
  {
    var next := Act(w, files, f.rollback, f.partial);
    FromDropTemp(next.0, next.1, f);
  }

  lemma FromDropTemp(w: Writer, files: Files, f: Faults)
    requires w.pc == DropTemp
    ensures Solo(w, files, f).0.failed == w.failed
    ensures var dropped := UnlinkFiles(files, w.names.temp, f.dropTemp);
      Solo(w, files, f).1 == if w.backupSet then UnlinkFiles(dropped, w.names.backup, f.dropOrphan) else dropped
  {
    var next := Act(w, files, f.dropTemp, f.partial);
    if w.backupSet {
      var last := Act(next.0, next.1, f.dropOrphan, f.partial);
      SoloEnds(last.0, last.1, f);
    } else {
      SoloEnds(next.0, next.1, f);
    }
  }

  lemma SoloEnds(w: Writer, files: Files, f: Faults)
    requires w.pc == Release
    ensures Solo(w, files, f) == (w.(pc := Done), files)
  {
    assert Act(w, files, f.release, f.partial) == (w.(pc := Done), files);
  }

  // ---------------------------------------------------------------- all or nothing

  /** The backup could not be removed and still holds the old content. */
  predicate OrphansBackup(files: Files, names: Names, f: Faults, replaced: Files, after: Files) {
    names.target in files && f.dropBackup.Some? && after == replaced[names.backup := files[names.target]]
  }

  /**
   * With at most one fault the call returns with the new data in place, leaving at most
   * the old content under the backup name, or throws with the directory as it was.
   */
  lemma AllOrNothing(files: Files, names: Names, data: string, f: Faults)
    requires names.Fresh(files) && f.Count() <= 1
    ensures var (after, thrown) := Call(files, names, data, f);
      var replaced := files[names.target := data];
      && (thrown ==> after == files)
      && (!thrown ==> after == replaced || OrphansBackup(files, names, f, replaced, after))
  {
    CallOutcome(files, names, data, f);
  }

  /** The target's old content is still in the directory. */
  predicate KeepsOld(files: Files, names: Names, after: Files) {
    names.target in files &&
    ((names.target in after && after[names.target] == files[names.target])
     || (names.backup in after && after[names.backup] == files[names.target]))
  }

  /**
   * Whatever fails, a call that throws destroys the old content exactly when the backup was
   * made, the commit and the rollback both failed, and the backup was then removed.
   */
  lemma OldContentIsLostExactlyWhen(files: Files, names: Names, data: string, f: Faults)
    requires names.Fresh(files) && names.target in files && Call(files, names, data, f).1
    ensures !KeepsOld(files, names, Call(files, names, data, f).0) <==>
      ReachesCommit(files, names.target, f) && f.access.None? && f.backup.None?
      && f.commit.Some? && f.rollback.Some? && f.dropOrphan.None?
  {
    CallOutcome(files, names, data, f);
  }

  /** Whatever fails, no other file changes, and a returning call has put its data in place. */
  lemma OnlyOwnNamesChange(files: Files, names: Names, data: string, f: Faults, path: string)
    requires names.Fresh(files) && path !in {names.target, names.temp, names.backup}
    ensures var (after, thrown) := Call(files, names, data, f);
      && (path in after <==> path in files) && (path in files ==> after[path] == files[path])
      && (!thrown ==> names.target in after && after[names.target] == data && names.temp !in after)
  {
    CallOutcome(files, names, data, f);
  }
}
