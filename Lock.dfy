/**
 * The singleton lock (`src/lock/mod.rs`). Acquiring the lock looks for a lock
 * file at `path`; when one exists and its first line is a `u32`, every other
 * process named `ustreamer` is killed. Then the current pid is written to the
 * file. Dropping the lock removes the file. The filesystem and the process
 * table are abstract maps held by a `Host`; whether a write or a removal
 * succeeds is an input.
 */
module Lock {
  import opened Wrappers
  import opened Bytes
  import opened Text

  const TARGET_NAME: string := "ustreamer"

  /** `format!("{}\n", pid)`: the pid in decimal on a line of its own. */
  function LockText(pid: nat): (t: string)
    ensures FirstLine(t) == Decimal(pid)
  {
    var d := Decimal(pid);
    assert '\n' !in d && d[|d| - 1] != '\r' by {
      assert forall i :: 0 <= i < |d| ==> IsDigit(d[i]);
    }
    FirstLineOf(d, "");
    d + "\n"
  }

  /** The lock file exists and its first line parses as a `u32`. */
  predicate RecordsPid(files: map<string, string>, path: string) {
    path in files && ParseUnsigned(FirstLine(files[path]), U32_BOUND).Some?
  }

  /** Every process named `ustreamer` other than the current one. */
  function Victims(procs: map<nat, string>, self: nat): set<nat> {
    set p | p in procs && procs[p] == TARGET_NAME && p != self
  }

  /** The processes acquiring the lock kills: the victims, but only when a lock file records a pid. */
  function Kills(files: map<string, string>, procs: map<nat, string>, path: string, self: nat): set<nat> {
    if RecordsPid(files, path) then Victims(procs, self) else {}
  }

  /** The filesystem after acquiring: the lock file holds the current pid, unless the write fails. */
  function FilesAfterAcquire(files: map<string, string>, path: string, self: nat, writeOk: bool): map<string, string> {
    if writeOk then files[path := LockText(self)] else files
  }

  /** The filesystem after dropping the lock: the file is gone, unless the removal fails. */
  function FilesAfterRelease(files: map<string, string>, path: string, removeOk: bool): map<string, string> {
    if removeOk then files - {path} else files
  }

  /** `StreamLock`: the path of the lock file it holds. */
  datatype StreamLock = StreamLock(path: string)

  /** The machine the streamer runs on: files by path, and process names by pid. */
  class Host {
    var files: map<string, string>
    var procs: map<nat, string>

    constructor (files0: map<string, string>, procs0: map<nat, string>)
      ensures files == files0 && procs == procs0
    {
      files := files0;
      procs := procs0;
    }

    /** `process.kill()`: the process leaves the table. */
    method Kill(pid: nat)
      modifies this
      ensures procs == old(procs) - {pid} && files == old(files)
    {
      procs := procs - {pid};
    }

    /** `StreamLock::aquire_lock`, run by the process `self`. */
    method AcquireLock(path: string, self: nat, writeOk: bool) returns (lock: StreamLock)
      modifies this
      ensures lock.path == path
      ensures procs == old(procs) - Kills(old(files), old(procs), path, self)
      ensures files == FilesAfterAcquire(old(files), path, self, writeOk)
    {
      if path in files {
        var content := files[path];
        if ParseUnsigned(FirstLine(content), U32_BOUND).Some? {
          KillOthers(self);
        }
      }
      if writeOk {
        files := files[path := LockText(self)];
      }
      lock := StreamLock(path);
    }

    /** The loop over the process table: kill every `ustreamer` but `self`. */
    method KillOthers(self: nat)
      modifies this
      ensures procs == old(procs) - Victims(old(procs), self) && files == old(files)
    {
      var pending := procs.Keys;
      ghost var victims := Victims(procs, self);
      while pending != {}
        invariant pending <= old(procs).Keys
        invariant files == old(files)
        invariant procs == old(procs) - (victims - pending)
        decreases |pending|
      {
        var p :| p in pending;
        RemoveStep(old(procs), victims, pending, p);
        assert p in procs && procs[p] == old(procs)[p];
        if procs[p] == TARGET_NAME && p != self {
          assert p in victims;
          Kill(p);
        } else {
          assert p !in victims;
        }
        pending := pending - {p};
      }
      assert victims - pending == victims;
    }

    /** `Drop for StreamLock`: remove the lock file; a failure is only logged. */
    method Release(lock: StreamLock, removeOk: bool)
      modifies this
      ensures files == FilesAfterRelease(old(files), lock.path, removeOk)
      ensures procs == old(procs)
    {
      if removeOk {
        files := files - {lock.path};
      }
    }
  }

  /** One step of the kill loop: settling `p` moves it out of `pending`, removing it if it is a victim. */
  lemma RemoveStep(m: map<nat, string>, victims: set<nat>, pending: set<nat>, p: nat)
    requires p in pending
    ensures p in victims ==> (m - (victims - pending)) - {p} == m - (victims - (pending - {p}))
    ensures p !in victims ==> m - (victims - pending) == m - (victims - (pending - {p}))
  {
    if p in victims {
      assert victims - (pending - {p}) == (victims - pending) + {p};
    } else {
      assert victims - (pending - {p}) == victims - pending;
    }
  }

  // ---------------------------------------------------------------------------
  // Properties
  // ---------------------------------------------------------------------------

  /** The lock file a process writes names it: its first line parses back to the pid. */
  lemma LockTextRecordsPid(pid: nat)
    requires pid < U32_BOUND
    ensures ParseUnsigned(FirstLine(LockText(pid)), U32_BOUND) == Some(pid)
  {
    ParseDecimal(pid, U32_BOUND);
  }

  /** Without a lock file nothing is killed. */
  lemma NoFileKillsNothing(files: map<string, string>, procs: map<nat, string>, path: string, self: nat)
    requires path !in files
    ensures Kills(files, procs, path, self) == {}
  {
  }

  /** An empty or non-numeric first line kills nothing. */
  lemma UnreadableLineKillsNothing(files: map<string, string>, procs: map<nat, string>, path: string, self: nat)
    requires path in files && ParseUnsigned(FirstLine(files[path]), U32_BOUND).None?
    ensures Kills(files, procs, path, self) == {}
  {
  }

  /** A lock file whose first line is empty counts as unreadable. */
  lemma EmptyLineKillsNothing(files: map<string, string>, procs: map<nat, string>, path: string, self: nat)
    requires path in files && FirstLine(files[path]) == ""
    ensures Kills(files, procs, path, self) == {}
  {
    ParseRejectsEmpty(U32_BOUND);
  }

  /** The acquiring process never kills itself, and kills only processes named `ustreamer`. */
  lemma KillsOnlyOthers(files: map<string, string>, procs: map<nat, string>, path: string, self: nat, p: nat)
    requires p in Kills(files, procs, path, self)
    ensures p != self && p in procs && procs[p] == TARGET_NAME
  {
  }

  /**
   * The recorded pid does not pick the victims: any two lock files that both
   * parse lead to the same kills, and every other `ustreamer` is among them.
   */
  lemma RecordedPidIgnored(files: map<string, string>, procs: map<nat, string>, path: string, self: nat, other: string)
    requires RecordsPid(files, path) && ParseUnsigned(FirstLine(other), U32_BOUND).Some?
    ensures Kills(files[path := other], procs, path, self) == Kills(files, procs, path, self)
    ensures forall p :: p in procs && procs[p] == TARGET_NAME && p != self ==> p in Kills(files, procs, path, self)
  {
  }

  /**
   * A second instance kills the first: once process `a` has written its lock
   * file, another process acquiring the same path kills `a` if `a` is a
   * running `ustreamer`.
   */
  lemma SecondInstanceKillsFirst(files: map<string, string>, procs: map<nat, string>, path: string, a: nat, b: nat)
    requires a < U32_BOUND && a != b && a in procs && procs[a] == TARGET_NAME
    ensures a in Kills(FilesAfterAcquire(files, path, a, true), procs, path, b)
  {
    LockTextRecordsPid(a);
  }

  /** Taking the lock and dropping it, both succeeding, leaves no lock file behind and no other file changed. */
  lemma AcquireReleaseLeavesNoFile(files: map<string, string>, path: string, self: nat)
    ensures FilesAfterRelease(FilesAfterAcquire(files, path, self, true), path, true) == files - {path}
    ensures path !in files ==> FilesAfterRelease(FilesAfterAcquire(files, path, self, true), path, true) == files
  {
    var after := FilesAfterRelease(FilesAfterAcquire(files, path, self, true), path, true);
    assert after.Keys == files.Keys - {path};
    if path !in files {
      assert files - {path} == files;
    }
  }
}
