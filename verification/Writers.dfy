/**
 * Any number of calls of the file writer on one target, interleaved operation by
 * operation under one lock (src/utils/safeWriteJson.ts, lines 47-216).
 */
module Writers {
  import opened Text
  import opened SafeWrite

  // ---------------------------------------------------------------- the system

  datatype Phase = Waiting | Holding | Finished

  /** A call: `json` is the value's serialisation when the call was made, if it has one. */
  datatype Job = Job(phase: Phase, w: Writer, json: Option<string>, snapshot: bool, spent: bool)
  {
    /** What the call writes when streaming the live object would come to `streamed`. */
    function Payload(streamed: string): string {
      if snapshot && json.Some? then json.value else streamed
    }
  }

  /**
   * `atLock` is the directory when the lock was last taken, and `committed` lists the calls
   * whose commit rename succeeded, oldest first.
   */
  datatype System = System(files: Files, lock: Option<nat>, jobs: map<nat, Job>, atLock: Files, committed: seq<nat>)

  /**
   * A new call, or the next operation of a call that is not finished. What the live object is
   * streamed as is arbitrary, since the object may be mutated between any two operations.
   */
  datatype Event =
    | NewCall(id: nat, names: Names, json: Option<string>, snapshot: bool)
    | Advance(id: nat, fault: Fault, partial: Option<string>, streamed: string)

  predicate Disjoint(a: Names, b: Names) {
    a.temp != b.temp && a.temp != b.backup && a.backup != b.temp && a.backup != b.backup
  }

  /** A call fails at most one operation, and takes the lock only when it is free. */
  predicate Enabled(s: System, target: string, e: Event) {
    match e
    case NewCall(id, names, _, _) =>
      id !in s.jobs && names.target == target && names.Fresh(s.files)
      && forall j :: j in s.jobs ==> Disjoint(names, s.jobs[j].w.names)
    case Advance(id, fault, _, _) =>
      id in s.jobs && s.jobs[id].phase != Finished && (fault.Some? ==> !s.jobs[id].spent)
      && (s.jobs[id].phase == Holding ==> s.jobs[id].w.pc != Done)
      && (s.jobs[id].phase == Waiting && fault.None? ==> s.lock.None?)
  }

  function Apply(s: System, e: Event): System
    requires e.Advance? ==> e.id in s.jobs && (s.jobs[e.id].phase == Holding ==> s.jobs[e.id].w.pc != Done)
  {
    match e
    case NewCall(id, names, json, snapshot) =>
      s.(jobs := s.jobs[id := Job(Waiting, Start(names, ""), json, snapshot, false)])
    case Advance(id, fault, partial, streamed) =>
      var job := s.jobs[id];
      var next := job.(spent := job.spent || fault.Some?);
      if job.phase == Holding then
        var w := if job.w.pc == WriteTemp then job.w.(data := job.Payload(streamed)) else job.w;
        var (after, files) := Act(w, s.files, fault, partial);
        var done := after.pc == Done;
        s.(files := files,
           lock := if done && fault.None? then None else s.lock,
           jobs := s.jobs[id := next.(w := after, phase := if done then Finished else Holding)],
           committed := if w.pc == Commit && !after.failed then s.committed + [id] else s.committed)
      else if fault.Some? then
        s.(jobs := s.jobs[id := next.(phase := Finished, w := job.w.(failed := true))])
      else
        s.(lock := Some(id), jobs := s.jobs[id := next.(phase := Holding)], atLock := s.files)
  }

  function Initial(files: Files): System {
    System(files, None, map[], files, [])
  }

  // ---------------------------------------------------------------- one session under the lock

  /** What the directory looks like at each point of a session that began with `from`. */
  ghost predicate Session(w: Writer, from: Files, files: Files, spent: bool) {
    var t, n, b, d := w.names.target, w.names.temp, w.names.backup, w.data;
    match w.pc
    case WriteTemp => !spent && !w.failed && !w.backupSet && files == from
    case CheckTarget => !spent && !w.failed && !w.backupSet && files == from[n := d]
    case BackUp => !spent && !w.failed && w.backupSet && t in from && files == from[n := d]
    case Commit => !w.failed &&
      ((!spent && w.backupSet && t in from && files == Move(from[n := d], t, b))
       || ((spent || t !in from) && (w.backupSet ==> spent) && files == from[n := d]))
    case DropBackup => !w.failed && w.backupSet &&
      ((!spent && t in from && files == from[t := d][b := from[t]]) || (spent && files == from[t := d]))
    case Rollback => w.failed && spent && w.backupSet && t in from
      && (files == from[n := d] || files == Move(from[n := d], t, b))
    case DropTemp => w.failed && spent && (files == from || (n in files && files == from[n := files[n]]))
    case DropOrphan => w.failed && spent && w.backupSet && files == from
    case Release =>
      if w.failed then files == from
      else files == from[t := d] || (t in from && files == from[t := d][b := from[t]])
    case Done => false
  }

  /** Every operation of a session leads to the next expected directory. */
  lemma SessionStep(w: Writer, from: Files, files: Files, spent: bool, fault: Fault, partial: Option<string>)
    requires w.names.Fresh(from) && Session(w, from, files, spent) && (fault.Some? ==> !spent)
    ensures var (after, next) := Act(w, files, fault, partial);
      && (w.pc != Release ==> after.pc != Done && Session(after, from, next, spent || fault.Some?))
      && (w.pc == Release ==> after.pc == Done && next == files && after.failed == w.failed)
      && after.names == w.names && after.data == w.data
  {
    var (t, n, b, d) := (w.names.target, w.names.temp, w.names.backup, w.data);
    match w.pc
    case WriteTemp =>
    case CheckTarget =>
    case BackUp =>
    case Commit =>
      CommitStep(w, from, files, spent, fault, partial);
    case DropBackup =>
      if t in from { DropPut(from[t := d], b, from[t]); }
    case Rollback =>
      RollbackStep(w, from, files, spent, fault, partial);
    case DropTemp =>
      if files != from { DropPut(from, n, files[n]); }
    case DropOrphan =>
    case Release =>
  }

  lemma CommitStep(w: Writer, from: Files, files: Files, spent: bool, fault: Fault, partial: Option<string>)
    requires w.names.Fresh(from) && w.pc == Commit && Session(w, from, files, spent) && (fault.Some? ==> !spent)
    ensures var (after, next) := Act(w, files, fault, partial);
      after.pc != Done && Session(after, from, next, spent || fault.Some?) && after.names == w.names && after.data == w.data
      && (fault.None? <==> !after.failed)
  {
    var t, n, b, d := w.names.target, w.names.temp, w.names.backup, w.data;
    if fault.None? {
      if files == from[n := d] {
        assert Move(files, n, t) == from[t := d];
      } else {
        assert Move(files, n, t) == from[t := d][b := from[t]];
      }
    } else {
      assert w.backupSet ==> t in from;
    }
  }

  lemma RollbackStep(w: Writer, from: Files, files: Files, spent: bool, fault: Fault, partial: Option<string>)
    requires w.names.Fresh(from) && w.pc == Rollback && Session(w, from, files, spent) && (fault.Some? ==> !spent)
    ensures var (after, next) := Act(w, files, fault, partial);
      after.pc != Done && Session(after, from, next, spent || fault.Some?) && after.names == w.names && after.data == w.data
  {
    var t, n, b, d := w.names.target, w.names.temp, w.names.backup, w.data;
    if b in files {
      assert Move(files, b, t) == from[n := d];
    }
  }

  // ---------------------------------------------------------------- the invariant

  /** The content the committed calls leave under the target. */
  function Latest(initial: Files, target: string, jobs: map<nat, Job>, committed: seq<nat>): Option<string> {
    if committed != [] then
      var id := committed[|committed| - 1];
      if id in jobs then Some(jobs[id].w.data) else None
    else if target in initial then Some(initial[target])
    else None
  }

  /**
   * The directory between sessions: the latest content under the target, everything else
   * as it was, and besides at most backups of committed calls.
   */
  ghost predicate Settled(initial: Files, target: string, files: Files, jobs: map<nat, Job>, committed: seq<nat>) {
    && (target in files <==> Latest(initial, target, jobs, committed).Some?)
    && (target in files ==> files[target] == Latest(initial, target, jobs, committed).value)
    && (forall p :: p in initial && p != target ==> p in files && files[p] == initial[p])
    && (forall p :: p in files && p != target && p !in initial ==> IsBackup(p, jobs, committed))
  }

  ghost predicate IsBackup(path: string, jobs: map<nat, Job>, committed: seq<nat>) {
    exists id :: id in committed && id in jobs && jobs[id].w.names.backup == path
  }

  predicate PastCommit(w: Writer) {
    !w.failed && (w.pc == DropBackup || w.pc == Release)
  }

  ghost predicate JobOk(s: System, target: string, id: nat)
    requires id in s.jobs
  {
    var job := s.jobs[id];
    && job.w.names.target == target
    && job.w.names.temp != target && job.w.names.backup != target && job.w.names.temp != job.w.names.backup
    && match job.phase
       case Waiting => job.w.names.Fresh(s.files) && id !in s.committed && !job.spent && job.w.pc == WriteTemp
                       && !job.w.failed && !job.w.backupSet
       case Holding => s.lock == Some(id) && job.w.names.Fresh(s.atLock) && Session(job.w, s.atLock, s.files, job.spent)
                       && (id in s.committed <==> PastCommit(job.w))
       case Finished => (id in s.committed <==> !job.w.failed)
  }

  /** A snapshot taken at the call is what gets written, whatever happened to the object since. */
  predicate SnapshotKept(job: Job) {
    job.snapshot && job.json.Some? &&
    ((job.phase == Holding && job.w.pc != WriteTemp) || (job.phase == Finished && !job.w.failed))
    ==> job.w.data == job.json.value
  }

  ghost predicate Held(s: System) {
    s.lock.Some? && s.lock.value in s.jobs && s.jobs[s.lock.value].phase == Holding
  }

  ghost predicate JobsOk(target: string, s: System) {
    forall id :: id in s.jobs ==> JobOk(s, target, id) && SnapshotKept(s.jobs[id])
  }

  predicate NamesDisjoint(jobs: map<nat, Job>) {
    forall i, j :: i in jobs && j in jobs && i != j ==> Disjoint(jobs[i].w.names, jobs[j].w.names)
  }

  predicate Recorded(s: System) {
    (forall id :: id in s.committed ==> id in s.jobs)
    && (s.lock.Some? ==> s.lock.value in s.jobs && s.jobs[s.lock.value].phase != Waiting)
  }

  ghost predicate DirectoryOk(initial: Files, target: string, s: System)
  {
    if !Held(s) then Settled(initial, target, s.files, s.jobs, s.committed)
    else if PastCommit(s.jobs[s.lock.value].w) then
      s.committed != [] && s.committed[|s.committed| - 1] == s.lock.value
      && Settled(initial, target, s.atLock, s.jobs, s.committed[..|s.committed| - 1])
    else Settled(initial, target, s.atLock, s.jobs, s.committed)
  }

  ghost predicate Invariant(initial: Files, target: string, s: System) {
    JobsOk(target, s) && NamesDisjoint(s.jobs) && Recorded(s) && DirectoryOk(initial, target, s)
  }

  // ---------------------------------------------------------------- every event keeps it

  /** Outside its own names a session changes nothing. */
  lemma SessionFrame(w: Writer, from: Files, files: Files, spent: bool, path: string)
    requires w.names.Fresh(from) && Session(w, from, files, spent)
    requires path !in {w.names.target, w.names.temp, w.names.backup}
    ensures (path in files <==> path in from) && (path in files ==> files[path] == from[path])
  {
  }

  predicate SameWrite(a: Writer, b: Writer) {
    a.data == b.data && a.names == b.names
  }

  /** `jobs` and `more` say the same about the committed calls. */
  ghost predicate Agree(jobs: map<nat, Job>, more: map<nat, Job>, committed: seq<nat>) {
    forall id :: id in committed ==> id in jobs && id in more && SameWrite(jobs[id].w, more[id].w)
  }

  lemma SettledFrame(initial: Files, target: string, files: Files, jobs: map<nat, Job>, more: map<nat, Job>, committed: seq<nat>)
    requires Settled(initial, target, files, jobs, committed) && Agree(jobs, more, committed)
    ensures Settled(initial, target, files, more, committed)
  {
    if committed != [] { assert committed[|committed| - 1] in committed; }
    forall p | p in files && p != target && p !in initial ensures IsBackup(p, more, committed) {
      var id :| id in committed && id in jobs && jobs[id].w.names.backup == p;
      assert more[id].w.names.backup == p;
    }
  }

  lemma EveryEventKeepsTheInvariant(initial: Files, target: string, s: System, e: Event)
    requires Invariant(initial, target, s) && Enabled(s, target, e)
    ensures Invariant(initial, target, Apply(s, e))
  {
    match e
    case NewCall(_, _, _, _) =>
      NewCallKeeps(initial, target, s, e);
    case Advance(id, fault, _, _) =>
      assert JobOk(s, target, id);
      if s.jobs[id].phase == Waiting {
        if fault.Some? { GiveUpKeeps(initial, target, s, e); } else { AcquireKeeps(initial, target, s, e); }
      } else if s.jobs[id].w.pc == Release {
        ReleaseKeeps(initial, target, s, e);
      } else {
        OperationKeeps(initial, target, s, e);
      }
  }

  /** The directory's part of the invariant carries over when no committed call changes. */
  lemma BystandersKeepSettled(initial: Files, target: string, s: System, after: System, id: nat)
    requires Recorded(s) && DirectoryOk(initial, target, s) && id !in s.committed
    requires id in s.jobs ==> s.jobs[id].phase != Holding
    requires id in after.jobs && after == s.(jobs := s.jobs[id := after.jobs[id]]) && after.jobs[id].phase != Holding
    ensures DirectoryOk(initial, target, after)
  {
    assert Held(after) <==> Held(s);
    assert Agree(s.jobs, after.jobs, s.committed);
    if !Held(s) {
      SettledFrame(initial, target, s.files, s.jobs, after.jobs, s.committed);
    } else if PastCommit(s.jobs[s.lock.value].w) {
      var before := s.committed[..|s.committed| - 1];
      assert forall i :: i in before ==> i in s.committed;
      SettledFrame(initial, target, s.atLock, s.jobs, after.jobs, before);
    } else {
      SettledFrame(initial, target, s.atLock, s.jobs, after.jobs, s.committed);
    }
  }

  /** A change to one call that is not in a session leaves the other calls as they were. */
  lemma BystandersKeepJobs(target: string, s: System, after: System, id: nat)
    requires JobsOk(target, s) && id in after.jobs && after.jobs == s.jobs[id := after.jobs[id]]
    requires after.files == s.files && after.committed == s.committed
    requires (after.lock == s.lock && after.atLock == s.atLock) || forall i :: i in s.jobs ==> s.jobs[i].phase != Holding
    requires JobOk(after, target, id) && SnapshotKept(after.jobs[id])
    ensures JobsOk(target, after)
  {
    forall i | i in after.jobs ensures JobOk(after, target, i) && SnapshotKept(after.jobs[i]) {
      if i != id { assert JobOk(s, target, i) && SnapshotKept(s.jobs[i]); }
    }
  }

  lemma NewCallKeeps(initial: Files, target: string, s: System, e: Event)
    requires Invariant(initial, target, s) && Enabled(s, target, e) && e.NewCall?
    ensures Invariant(initial, target, Apply(s, e))
  {
    var after := Apply(s, e);
    assert e.id !in s.committed;
    BystandersKeepSettled(initial, target, s, after, e.id);
    BystandersKeepJobs(target, s, after, e.id);
  }

  lemma GiveUpKeeps(initial: Files, target: string, s: System, e: Event)
    requires Invariant(initial, target, s) && Enabled(s, target, e) && e.Advance?
    requires s.jobs[e.id].phase == Waiting && e.fault.Some?
    ensures Invariant(initial, target, Apply(s, e))
  {
    var after := Apply(s, e);
    assert JobOk(s, target, e.id);
    BystandersKeepSettled(initial, target, s, after, e.id);
    BystandersKeepJobs(target, s, after, e.id);
    SameNames(s.jobs, after.jobs, e.id);
  }

  lemma SameNames(jobs: map<nat, Job>, after: map<nat, Job>, id: nat)
    requires NamesDisjoint(jobs) && id in jobs && id in after && after == jobs[id := after[id]]
    requires after[id].w.names == jobs[id].w.names
    ensures NamesDisjoint(after)
  {
    forall i, j | i in after && j in after && i != j ensures Disjoint(after[i].w.names, after[j].w.names) {
      assert Disjoint(jobs[i].w.names, jobs[j].w.names);
    }
  }

  lemma AcquireKeeps(initial: Files, target: string, s: System, e: Event)
    requires Invariant(initial, target, s) && Enabled(s, target, e) && e.Advance?
    requires s.jobs[e.id].phase == Waiting && e.fault.None?
    ensures Invariant(initial, target, Apply(s, e))
  {
    var after := Apply(s, e);
    assert JobOk(s, target, e.id);
    forall i | i in s.jobs ensures s.jobs[i].phase != Holding { assert JobOk(s, target, i); }
    BystandersKeepJobs(target, s, after, e.id);
    SameNames(s.jobs, after.jobs, e.id);
    KeepSettled(initial, target, s.files, s, after, e.id, s.committed);
  }

  lemma OperationKeeps(initial: Files, target: string, s: System, e: Event)
    requires Invariant(initial, target, s) && Enabled(s, target, e) && e.Advance?
    requires s.jobs[e.id].phase == Holding && s.jobs[e.id].w.pc != Release
    ensures Invariant(initial, target, Apply(s, e))
  {
    var after, id := Apply(s, e), e.id;
    assert JobOk(s, target, id) && SnapshotKept(s.jobs[id]);
    SessionAdvances(target, s, e);
    OthersKept(target, s, e);
    SameNames(s.jobs, after.jobs, id);
    OperationDirectory(initial, target, s, after, id);
  }

  lemma OperationDirectory(initial: Files, target: string, s: System, after: System, id: nat)
    requires DirectoryOk(initial, target, s) && Recorded(s)
    requires id in s.jobs && s.jobs[id].phase == Holding && s.lock == after.lock == Some(id) && s.atLock == after.atLock
    requires id in after.jobs && after.jobs == s.jobs[id := after.jobs[id]]
    requires after.jobs[id].phase == Holding && after.jobs[id].w.names == s.jobs[id].w.names
    requires PastCommit(s.jobs[id].w) ==> after.committed == s.committed && PastCommit(after.jobs[id].w)
    requires !PastCommit(s.jobs[id].w) ==>
      after.committed == if PastCommit(after.jobs[id].w) then s.committed + [id] else s.committed
    requires id in s.committed ==> after.jobs[id].w.data == s.jobs[id].w.data
    ensures DirectoryOk(initial, target, after)
  {
    if PastCommit(s.jobs[id].w) {
      KeepSettled(initial, target, s.atLock, s, after, id, s.committed[..|s.committed| - 1]);
    } else {
      KeepSettled(initial, target, s.atLock, s, after, id, s.committed);
      assert |after.committed| > |s.committed| ==> after.committed[..|after.committed| - 1] == s.committed;
    }
  }

  /** The writer that an operation of call `id` works for. */
  function Working(s: System, e: Event): Writer
    requires e.Advance? && e.id in s.jobs
  {
    var job := s.jobs[e.id];
    if job.w.pc == WriteTemp then job.w.(data := job.Payload(e.streamed)) else job.w
  }

  lemma SessionAdvances(target: string, s: System, e: Event)
    requires Enabled(s, target, e) && e.Advance? && s.jobs[e.id].phase == Holding && s.jobs[e.id].w.pc != Release
    requires JobOk(s, target, e.id) && SnapshotKept(s.jobs[e.id])
    ensures var after, id := Apply(s, e), e.id;
      && JobOk(after, target, id) && SnapshotKept(after.jobs[id])
      && after.jobs[id].phase == Holding && after.jobs[id].w.names == s.jobs[id].w.names
      && (PastCommit(s.jobs[id].w) ==> after.committed == s.committed && PastCommit(after.jobs[id].w))
      && (!PastCommit(s.jobs[id].w) ==>
            after.committed == if PastCommit(after.jobs[id].w) then s.committed + [id] else s.committed)
      && (id in s.committed ==> after.jobs[id].w.data == s.jobs[id].w.data)
  {
    var job, w := s.jobs[e.id], Working(s, e);
    SessionStep(w, s.atLock, s.files, job.spent, e.fault, e.partial);
    if w.pc == Commit { CommitStep(w, s.atLock, s.files, job.spent, e.fault, e.partial); }
    PastCommitStep(w, s.files, e.fault, e.partial);
  }

  /** A call is past its commit exactly after a commit without error. */
  lemma PastCommitStep(w: Writer, files: Files, fault: Fault, partial: Option<string>)
    requires w.pc != Done && w.pc != Release
    requires w.failed <==> w.pc in {Rollback, DropTemp, DropOrphan}
    ensures var after := Act(w, files, fault, partial).0;
      PastCommit(after) <==> PastCommit(w) || (w.pc == Commit && !after.failed)
  {
  }

  lemma KeepSettled(initial: Files, target: string, files: Files, s: System, after: System, id: nat, committed: seq<nat>)
    requires Settled(initial, target, files, s.jobs, committed)
    requires id in s.jobs && id in after.jobs && after.jobs == s.jobs[id := after.jobs[id]]
    requires after.jobs[id].w.names == s.jobs[id].w.names
    requires id in committed ==> after.jobs[id].w.data == s.jobs[id].w.data
    requires forall i :: i in committed ==> i in s.jobs
    ensures Settled(initial, target, files, after.jobs, committed)
  {
    SettledFrame(initial, target, files, s.jobs, after.jobs, committed);
  }

  /** The other calls do not notice an operation. */
  lemma OthersKept(target: string, s: System, e: Event)
    requires JobsOk(target, s) && NamesDisjoint(s.jobs)
    requires Enabled(s, target, e) && e.Advance? && s.jobs[e.id].phase == Holding
    ensures forall id :: id in s.jobs && id != e.id ==> JobOk(Apply(s, e), target, id) && SnapshotKept(Apply(s, e).jobs[id])
  {
    var after := Apply(s, e);
    assert JobOk(s, target, e.id);
    forall id | id in s.jobs && id != e.id ensures JobOk(after, target, id) && SnapshotKept(after.jobs[id]) {
      assert JobOk(s, target, id) && SnapshotKept(s.jobs[id]);
      var names := s.jobs[id].w.names;
      assert Disjoint(names, s.jobs[e.id].w.names);
      OperationFrame(target, s, e, names.temp);
      OperationFrame(target, s, e, names.backup);
    }
  }

  lemma OperationFrame(target: string, s: System, e: Event, path: string)
    requires Enabled(s, target, e) && e.Advance? && s.jobs[e.id].phase == Holding && JobOk(s, target, e.id)
    requires var names := s.jobs[e.id].w.names; path !in {names.target, names.temp, names.backup}
    ensures path in Apply(s, e).files <==> path in s.files
  {
    var job, w := s.jobs[e.id], Working(s, e);
    SessionStep(w, s.atLock, s.files, job.spent, e.fault, e.partial);
    SessionFrame(w, s.atLock, s.files, job.spent, path);
    if w.pc != Release {
      SessionFrame(Act(w, s.files, e.fault, e.partial).0, s.atLock, Apply(s, e).files, job.spent || e.fault.Some?, path);
    }
  }

  lemma ReleaseKeeps(initial: Files, target: string, s: System, e: Event)
    requires Invariant(initial, target, s) && Enabled(s, target, e) && e.Advance?
    requires s.jobs[e.id].phase == Holding && s.jobs[e.id].w.pc == Release
    ensures Invariant(initial, target, Apply(s, e))
  {
    var after, id := Apply(s, e), e.id;
    assert JobOk(s, target, id) && SnapshotKept(s.jobs[id]);
    var w := s.jobs[id].w;
    SessionStep(w, s.atLock, s.files, s.jobs[id].spent, e.fault, e.partial);
    OthersKept(target, s, e);
    assert JobOk(after, target, id) && SnapshotKept(after.jobs[id]);
    SameNames(s.jobs, after.jobs, id);
    ReleaseDirectory(initial, target, s, after, id);
  }

  lemma ReleaseDirectory(initial: Files, target: string, s: System, after: System, id: nat)
    requires DirectoryOk(initial, target, s) && Recorded(s)
    requires id in s.jobs && s.jobs[id].phase == Holding && s.lock == Some(id) && s.jobs[id].w.pc == Release
    requires JobOk(s, target, id)
    requires after.files == s.files && after.committed == s.committed && (after.lock == s.lock || after.lock == None)
    requires id in after.jobs && after.jobs == s.jobs[id := after.jobs[id]]
    requires after.jobs[id].phase == Finished && after.jobs[id].w == s.jobs[id].w.(pc := Done)
    ensures DirectoryOk(initial, target, after)
  {
    var w := s.jobs[id].w;
    if w.failed {
      KeepSettled(initial, target, s.atLock, s, after, id, s.committed);
    } else {
      CommitDirectory(initial, target, s, after, id);
    }
  }

  lemma CommitDirectory(initial: Files, target: string, s: System, after: System, id: nat)
    requires DirectoryOk(initial, target, s) && Recorded(s)
    requires id in s.jobs && s.jobs[id].phase == Holding && s.lock == Some(id) && s.jobs[id].w.pc == Release && !s.jobs[id].w.failed
    requires JobOk(s, target, id)
    requires after.files == s.files && after.committed == s.committed && (after.lock == s.lock || after.lock == None)
    requires id in after.jobs && after.jobs == s.jobs[id := after.jobs[id]]
    requires after.jobs[id].phase == Finished && after.jobs[id].w == s.jobs[id].w.(pc := Done)
    ensures DirectoryOk(initial, target, after)
  {
    var before := s.committed[..|s.committed| - 1];
    KeepSettled(initial, target, s.atLock, s, after, id, before);
    assert s.committed == before + [id];
    SettledByCommit(initial, target, s.atLock, s.files, after.jobs, before, id);
  }

  /** A successful session settles the directory on its own data. */
  lemma SettledByCommit(initial: Files, target: string, from: Files, files: Files, jobs: map<nat, Job>, before: seq<nat>, id: nat)
    requires Settled(initial, target, from, jobs, before)
    requires id in jobs && jobs[id].w.names.target == target && jobs[id].w.names.Fresh(from)
    requires var w := jobs[id].w;
      files == from[target := w.data] || (target in from && files == from[target := w.data][w.names.backup := from[target]])
    ensures Settled(initial, target, files, jobs, before + [id])
  {
    var committed := before + [id];
    assert committed[|committed| - 1] == id;
    forall p | p in files && p != target && p !in initial ensures IsBackup(p, jobs, committed) {
      if p in from {
        var i :| i in before && i in jobs && jobs[i].w.names.backup == p;
        assert i in committed;
      } else {
        assert id in committed;
      }
    }
  }

  // ---------------------------------------------------------------- what holds over every run

  /** The states of a run of enabled events. */
  ghost predicate IsRun(initial: Files, target: string, states: seq<System>, events: seq<Event>) {
    |states| == |events| + 1 && states[0] == Initial(initial)
    && forall i :: 0 <= i < |events| ==> IsStep(target, states[i], events[i], states[i + 1])
  }

  ghost predicate IsStep(target: string, s: System, e: Event, next: System) {
    Enabled(s, target, e) && next == Apply(s, e)
  }

  lemma InitiallyOk(initial: Files, target: string)
    ensures Invariant(initial, target, Initial(initial))
  {
  }

  lemma {:induction false} RunsKeepTheInvariant(initial: Files, target: string, states: seq<System>, events: seq<Event>, k: nat)
    requires IsRun(initial, target, states, events) && k < |states|
    ensures Invariant(initial, target, states[k])
  {
    if k == 0 {
      InitiallyOk(initial, target);
    } else {
      RunsKeepTheInvariant(initial, target, states, events, k - 1);
      assert IsStep(target, states[k - 1], events[k - 1], states[k - 1 + 1]);
      EveryEventKeepsTheInvariant(initial, target, states[k - 1], events[k - 1]);
    }
  }

  /** At any moment at most one call is between taking the lock and releasing it. */
  lemma AtMostOneHolds(initial: Files, target: string, states: seq<System>, events: seq<Event>, k: nat, i: nat, j: nat)
    requires IsRun(initial, target, states, events) && k < |states|
    requires i in states[k].jobs && j in states[k].jobs
    requires states[k].jobs[i].phase == Holding && states[k].jobs[j].phase == Holding
    ensures i == j && states[k].lock == Some(i)
  {
    RunsKeepTheInvariant(initial, target, states, events, k);
    assert JobOk(states[k], target, i) && JobOk(states[k], target, j);
  }

  /** A finished call returned normally exactly when it committed, and then wrote its snapshot if it had one. */
  lemma ReturnsExactlyWhenCommitted(initial: Files, target: string, states: seq<System>, events: seq<Event>, k: nat, id: nat)
    requires IsRun(initial, target, states, events) && k < |states|
    requires id in states[k].jobs && states[k].jobs[id].phase == Finished
    ensures !states[k].jobs[id].w.failed <==> id in states[k].committed
    ensures !states[k].jobs[id].w.failed && states[k].jobs[id].snapshot && states[k].jobs[id].json.Some? ==>
      states[k].jobs[id].w.data == states[k].jobs[id].json.value
  {
    RunsKeepTheInvariant(initial, target, states, events, k);
    assert JobOk(states[k], target, id) && SnapshotKept(states[k].jobs[id]);
  }

  /**
   * Whenever no call is in a session, the lock being free or left behind by a failed release,
   * the target holds the data of the last call that committed, or what it held at first; every other
   * file is as it was, up to backups of committed calls.
   */
  lemma FreeLockMeansSettled(initial: Files, target: string, states: seq<System>, events: seq<Event>, k: nat)
    requires IsRun(initial, target, states, events) && k < |states| && !Held(states[k])
    ensures Settled(initial, target, states[k].files, states[k].jobs, states[k].committed)
  {
    RunsKeepTheInvariant(initial, target, states, events, k);
  }
}
