/**
 * Making a package version visible, and undoing it, on a file system where every operation may
 * fail. A directory is the map from the relative paths of its files to their bytes.
 */
module PluginInstall {
  import opened Wrappers

  type Tree = map<string, Bytes>

  const RECOVERY_MARKER := ".useful-install-recovery-required"

  const MARKER_TEXT: Bytes := []

  /** Two file systems that differ at most at one path. */
  ghost predicate SameElsewhere(a: map<string, Tree>, b: map<string, Tree>, path: string)
  {
    forall q :: q != path ==> (q in a <==> q in b) && (q in a ==> a[q] == b[q])
  }

  // ---------- the file system ----------

  class FileSystem {
    var dirs: map<string, Tree>
    /** How many operations have failed that could have been done, look-ups included. */
    ghost var failures: nat
    /** From where renames have failed that could have been done. */
    ghost var stuck: multiset<string>

    constructor ()
      ensures dirs == map[] && failures == 0 && stuck == multiset{}
    {
      dirs, failures, stuck := map[], 0, multiset{};
    }

    /** How many failures there have been, apart from renames of `path`. */
    ghost function Others(path: string): int
      reads this
    {
      failures - stuck[path]
    }

    /** The files under a path; a missing directory has none. */
    function Files(path: string): Tree
      reads this
    {
      if path in dirs then dirs[path] else map[]
    }

    /** Every file of `tree` except a recovery marker is under `path` with its bytes. */
    ghost predicate Keeps(path: string, tree: Tree)
      reads this
    {
      forall f :: f in tree && f != RECOVERY_MARKER ==> f in Files(path) && Files(path)[f] == tree[f]
    }

    /** Looks for a directory. A failing look-up reads as "not there"; `honest` says it did not fail. */
    method Exists(path: string) returns (seen: bool, ghost honest: bool)
      modifies this
      ensures dirs == old(dirs) && seen == (honest && path in dirs)
      ensures failures == old(failures) + (if honest then 0 else 1) && stuck == old(stuck)
    {
      if * {
        seen, honest := path in dirs, true;
      } else {
        seen, honest := false, false;
        failures := failures + 1;
      }
    }

    /** Makes a directory, which the model does not represent while it is empty. */
    method Create(path: string) returns (ok: bool)
      modifies this
      ensures dirs == old(dirs) && failures == old(failures) + (if ok then 0 else 1) && stuck == old(stuck)
    {
      ok := true;
      if * {
        ok := false;
        failures := failures + 1;
      }
    }

    /** Renames a directory; the target must be absent or empty. A failure changes nothing. */
    method Rename(from: string, to: string) returns (ok: bool)
      requires from != to
      modifies this
      ensures ok ==> from in old(dirs) && old(Files(to)) == map[] &&
                     dirs == old(dirs)[to := old(dirs)[from]] - {from}
      ensures !ok ==> dirs == old(dirs)
      ensures if !ok && from in old(dirs) && old(Files(to)) == map[]
              then failures == old(failures) + 1 && stuck == old(stuck) + multiset{from}
              else failures == old(failures) && stuck == old(stuck)
    {
      ok := false;
      if from in dirs && Files(to) == map[] {
        if * {
          dirs := dirs[to := dirs[from]] - {from};
          ok := true;
        } else {
          failures, stuck := failures + 1, stuck + multiset{from};
        }
      }
    }

    /** Removes a directory. A failure may already have removed any of its files. */
    method RemoveDirAll(path: string) returns (ok: bool)
      modifies this
      ensures ok ==> path !in dirs
      ensures !ok ==> (path in dirs <==> path in old(dirs))
      ensures SameElsewhere(old(dirs), dirs, path)
      ensures forall f :: f in Files(path) ==> f in old(Files(path)) && Files(path)[f] == old(Files(path))[f]
      ensures failures == old(failures) + (if !ok && path in old(dirs) then 1 else 0) && stuck == old(stuck)
    {
      ok := false;
      if path in dirs {
        if * {
          dirs := dirs - {path};
          ok := true;
        } else {
          var gone: set<string> := *;
          dirs := dirs[path := dirs[path] - gone];
          failures := failures + 1;
        }
      }
    }

    /** Writes one file; a failure may leave any bytes in it, and nothing else is touched. */
    method Write(path: string, name: string, data: Bytes) returns (ok: bool)
      modifies this
      ensures dirs.Keys == old(dirs).Keys && SameElsewhere(old(dirs), dirs, path)
      ensures Files(path) - {name} == old(Files(path)) - {name}
      ensures ok ==> name in Files(path) && Files(path)[name] == data
      ensures failures == old(failures) + (if !ok && path in old(dirs) then 1 else 0) && stuck == old(stuck)
    {
      ok := false;
      if path in dirs {
        if * {
          dirs := dirs[path := dirs[path][name := data]];
          ok := true;
        } else {
          if * {
            var partial: Bytes := *;
            dirs := dirs[path := dirs[path][name := partial]];
          }
          failures := failures + 1;
        }
      }
    }

    /** Copies a directory file by file; any failure removes the partial copy, if that works. */
    method CopyDirAll(from: string, to: string) returns (ok: bool)
      requires from != to && to !in dirs
      modifies this
      ensures SameElsewhere(old(dirs), dirs, to)
      ensures ok ==> from in old(dirs) && dirs == old(dirs)[to := old(dirs)[from]]
      ensures failures >= old(failures) && stuck == old(stuck)
      ensures from in old(dirs) && failures == old(failures) ==> ok
    {
      ok := false;
      if from !in dirs { return; }
      var created := Create(to);
      if !created { return; }
      dirs := dirs[to := map[]];
      var todo := dirs[from].Keys;
      while todo != {}
        invariant from in dirs && to in dirs && SameElsewhere(old(dirs), dirs, to) && dirs[from] == old(dirs)[from]
        invariant todo <= dirs[from].Keys && dirs[to].Keys == dirs[from].Keys - todo
        invariant forall f :: f in dirs[to] ==> dirs[to][f] == dirs[from][f]
        invariant failures == old(failures) && stuck == old(stuck)
        decreases todo
      {
        var f :| f in todo;
        var written := Write(to, f, dirs[from][f]);
        if !written {
          var _ := RemoveDirAll(to);
          return;
        }
        assert forall g :: g in dirs[to] && g != f ==> g in Files(to) - {f};
        assert dirs[to].Keys == (Files(to) - {f}).Keys + {f};
        todo := todo - {f};
      }
      assert dirs[to] == old(dirs)[from];
      assert dirs == old(dirs)[to := dirs[to]];
      ok := true;
    }
  }

  // ---------- the transaction ----------

  /** The failure texts a rollback collects; any of them makes the error ask for manual recovery. */
  datatype InstallError = InstallRolledBack(recoveryRequired: bool)

  /** Removes the new version, or moves it aside under a marker; only its own two paths change. */
  method ClearDestination(fs: FileSystem, destination: string, orphan: string)
    returns (cleared: bool, ghost honest: bool)
    requires orphan != destination && orphan !in fs.dirs
    modifies fs
    ensures forall q :: q != destination && q != orphan ==>
              fs.Files(q) == old(fs.Files(q)) && (q in fs.dirs <==> q in old(fs.dirs))
    ensures cleared ==> fs.Files(destination) == if honest then map[] else old(fs.Files(destination))
    ensures !honest ==> cleared && fs.dirs == old(fs.dirs)
    ensures fs.failures >= old(fs.failures) && (fs.failures == old(fs.failures) ==> cleared && honest)
    ensures forall p :: p != destination ==> fs.stuck[p] == old(fs.stuck[p])
    ensures !cleared && fs.failures == old(fs.failures) + 1 ==>
              destination !in fs.dirs && orphan in fs.dirs && RECOVERY_MARKER in fs.Files(orphan)
  {
    cleared := true;
    var seen, probe := fs.Exists(destination);
    honest := probe;
    if seen {
      var removed := fs.RemoveDirAll(destination);
      if !removed {
        var quarantined := fs.Rename(destination, orphan);
        var _ := fs.Write(if quarantined then orphan else destination, RECOVERY_MARKER, MARKER_TEXT);
        cleared := false;
      }
    }
  }

  /** Renames the old version back; if that fails it stays where it is, marked. */
  method RestoreReplaced(fs: FileSystem, path: string, destination: string) returns (restored: bool)
    requires path != destination
    modifies fs
    ensures restored ==> fs.Files(destination) == old(fs.Files(path)) && old(fs.Files(destination)) == map[]
    ensures fs.Keeps(destination, old(fs.Files(path))) || fs.Keeps(path, old(fs.Files(path)))
    ensures forall q :: q != destination && q != path ==> fs.Files(q) == old(fs.Files(q))
    ensures !restored ==> fs.Files(destination) == old(fs.Files(destination))
    ensures fs.failures >= old(fs.failures) && forall p :: p != path ==> fs.stuck[p] == old(fs.stuck[p])
    ensures fs.failures == old(fs.failures) && path in old(fs.dirs) && old(fs.Files(destination)) == map[] ==> restored
    ensures !restored && path in old(fs.dirs) && fs.failures <= old(fs.failures) + 1 &&
            (old(fs.Files(destination)) == map[] || fs.failures == old(fs.failures)) ==>
              RECOVERY_MARKER in fs.Files(path)
  {
    restored := fs.Rename(path, destination);
    if !restored {
      var _ := fs.Write(path, RECOVERY_MARKER, MARKER_TEXT);
      assert forall f :: f in old(fs.Files(path)) && f != RECOVERY_MARKER ==> f in fs.Files(path) - {RECOVERY_MARKER};
    }
  }

  class InstallTransaction {
    const destination: string
    var replaced: Option<string>
    var finalized: bool

    constructor (destination: string, replaced: Option<string>)
      ensures this.destination == destination && this.replaced == replaced && !finalized
    {
      this.destination, this.replaced, this.finalized := destination, replaced, false;
    }

    /** The files the version directory had before the install. */
    function Before(fs: FileSystem): Tree
      reads this, fs
    {
      if replaced.Some? then fs.Files(replaced.value) else map[]
    }

    method Commit(fs: FileSystem)
      modifies this, fs
      ensures finalized && replaced == None
      ensures old(replaced) != Some(destination) ==> fs.Files(destination) == old(fs.Files(destination))
      ensures old(replaced).None? ==> fs.dirs == old(fs.dirs)
      ensures old(replaced).Some? && fs.failures == old(fs.failures) ==> old(replaced).value !in fs.dirs
    {
      finalized := true;
      if replaced.Some? {
        var path := replaced.value;
        var _ := fs.RemoveDirAll(path);
        replaced := None;
      }
    }

    /**
     * Undoes the install. Whatever fails, the replaced version stays whole at one of its two names;
     * success means the old files are back, unless there was no old version and the look-up failed.
     */
    method Rollback(fs: FileSystem, orphan: string) returns (r: Result<(), InstallError>, ghost honest: bool)
      requires replaced != Some(destination) && replaced != Some(orphan)
      requires orphan != destination && orphan !in fs.dirs
      modifies this, fs
      ensures finalized
      ensures old(finalized) ==> r == Ok(()) && fs.dirs == old(fs.dirs) && replaced == old(replaced)
      ensures !old(finalized) && old(replaced).Some? ==>
                fs.Keeps(destination, old(Before(fs))) || fs.Keeps(old(replaced).value, old(Before(fs)))
      ensures !old(finalized) && r.Ok? ==>
                (fs.Files(destination) == old(Before(fs)) <==>
                 old(replaced).Some? || honest || old(fs.Files(destination)) == map[])
      ensures !old(finalized) && old(replaced).None? && !honest ==>
                r.Ok? && fs.Files(destination) == old(fs.Files(destination))
      ensures r.Err? ==> r.error.recoveryRequired
      ensures !old(finalized) ==> replaced == None
      ensures fs.failures >= old(fs.failures)
      ensures forall p :: p != destination && Some(p) != old(replaced) ==> fs.stuck[p] == old(fs.stuck[p])
      ensures fs.failures == old(fs.failures) && (old(replaced).Some? ==> old(replaced).value in old(fs.dirs)) ==>
                r.Ok? && (!old(finalized) ==> fs.Files(destination) == old(Before(fs)))
    {
      honest := true;
      if finalized { return Ok(()), honest; }
      var cleared, probe := ClearDestination(fs, destination, orphan);
      honest := probe;
      var restored := true;
      if replaced.Some? {
        assert fs.Files(replaced.value) == old(fs.Files(replaced.value));
        restored := RestoreReplaced(fs, replaced.value, destination);
        replaced := None;
      }
      finalized := true;
      r := if cleared && restored then Ok(()) else Err(InstallRolledBack(true));
    }
  }

  // ---------- the install ----------

  /** The directories one install touches; the last four names are drawn fresh for it. */
  datatype Names = Names(destination: string, staging: string, backup: string, copy: string, orphan: string)

  predicate DistinctNames(n: Names)
  {
    && n.destination != n.staging && n.backup !in {n.destination, n.staging}
    && n.copy !in {n.destination, n.staging, n.backup} && n.orphan !in {n.destination, n.staging, n.backup, n.copy}
  }

  /** The replaced version is whole, at its own name or under the backup name. */
  ghost predicate OldVersionWhole(fs: FileSystem, n: Names, before: Tree)
    reads fs
  {
    fs.Keeps(n.destination, before) || fs.Keeps(n.backup, before)
  }

  /** The rollback that ran, if any: whether there was a backup, and whether its look-up told the truth. */
  datatype Undo = NoUndo | Undone(hadBackup: bool, honest: bool)

  /** The one way to leave a new version behind without saying so. */
  const LEFT_BEHIND := Undone(false, false)

  /** Copies the staging directory beside the destination and renames the complete copy. */
  method CopyAndSwitch(fs: FileSystem, n: Names) returns (switched: bool)
    requires DistinctNames(n) && n.copy !in fs.dirs && fs.Files(n.staging) != map[]
    modifies fs
    ensures forall q :: q != n.copy && q != n.destination ==>
              fs.Files(q) == old(fs.Files(q)) && (q in fs.dirs <==> q in old(fs.dirs))
    ensures switched ==> n.copy !in fs.dirs && old(fs.Files(n.destination)) == map[]
    ensures fs.Files(n.destination) == if switched then old(fs.Files(n.staging)) else old(fs.Files(n.destination))
    ensures fs.failures >= old(fs.failures) && forall p :: p != n.copy ==> fs.stuck[p] == old(fs.stuck[p])
    ensures !switched ==> fs.failures > old(fs.failures) || old(fs.Files(n.destination)) != map[]
  {
    var copied := fs.CopyDirAll(n.staging, n.copy);
    switched := false;
    if copied { switched := fs.Rename(n.copy, n.destination); }
  }

  /** The cross-volume fallback: copy beside the destination, switch, then drop the staging directory. */
  method SwitchCopy(fs: FileSystem, n: Names, backup: Option<string>)
    returns (r: Result<(), InstallError>, ghost undo: Undo)
    requires DistinctNames(n) && n.copy !in fs.dirs && n.orphan !in fs.dirs && fs.Files(n.staging) != map[]
    requires backup == None || (backup == Some(n.backup) && fs.Files(n.destination) == map[])
    modifies fs
    ensures r.Ok? ==>
              n.orphan !in fs.dirs &&
              fs.Files(n.destination) == old(fs.Files(n.staging)) && old(fs.Files(n.destination)) == map[] &&
              (backup.Some? ==> fs.Files(n.backup) == old(fs.Files(n.backup)))
    ensures r.Err? && backup.Some? ==> OldVersionWhole(fs, n, old(fs.Files(n.backup)))
    ensures r.Err? && backup.None? && old(fs.Files(n.destination)) != map[] ==>
              fs.Files(n.destination) == old(fs.Files(n.destination))
    ensures r.Err? && !r.error.recoveryRequired ==>
              var before := if backup.Some? then old(fs.Files(n.backup)) else old(fs.Files(n.destination));
              fs.Files(n.destination) == before <==> undo != LEFT_BEHIND
    ensures undo == LEFT_BEHIND ==>
              r == Err(InstallRolledBack(false)) && fs.Files(n.destination) == old(fs.Files(n.staging))
    ensures fs.failures >= old(fs.failures) && fs.stuck[n.staging] == old(fs.stuck[n.staging])
    ensures r.Ok? ==> n.staging !in fs.dirs && n.copy !in fs.dirs && (n.backup in fs.dirs <==> n.backup in old(fs.dirs))
    ensures r.Err? ==> fs.failures > old(fs.failures) || old(fs.Files(n.destination)) != map[]
  {
    undo := NoUndo;
    var switched := CopyAndSwitch(fs, n);
    if switched {
      var removed := fs.RemoveDirAll(n.staging);
      if removed { return Ok(()), undo; }
      var transaction := new InstallTransaction(n.destination, backup);
      var undone, honest := transaction.Rollback(fs, n.orphan);
      return Err(InstallRolledBack(undone.Err?)), Undone(backup.Some?, honest);
    }
    var recovery := DropCopy(fs, n, backup);
    r := Err(InstallRolledBack(recovery));
  }

  /** The copy could not be put in place: it goes, and the old version comes back. */
  method DropCopy(fs: FileSystem, n: Names, backup: Option<string>) returns (recovery: bool)
    requires DistinctNames(n)
    requires backup == None || (backup == Some(n.backup) && fs.Files(n.destination) == map[])
    modifies fs
    ensures backup.Some? ==> OldVersionWhole(fs, n, old(fs.Files(n.backup)))
    ensures backup.Some? && !recovery ==> fs.Files(n.destination) == old(fs.Files(n.backup))
    ensures backup.None? ==> fs.Files(n.destination) == old(fs.Files(n.destination))
    ensures fs.failures >= old(fs.failures) && fs.stuck[n.staging] == old(fs.stuck[n.staging])
  {
    recovery := false;
    var seen, _ := fs.Exists(n.copy);
    if seen {
      var removed := fs.RemoveDirAll(n.copy);
      recovery := !removed;
    }
    assert fs.Files(n.destination) == old(fs.Files(n.destination)) && fs.Files(n.backup) == old(fs.Files(n.backup));
    if backup.Some? {
      var restored := RestoreReplaced(fs, n.backup, n.destination);
      recovery := recovery || !restored;
    }
  }

  /** Makes the parent directory and moves an old version to its backup name. */
  method SetAside(fs: FileSystem, n: Names) returns (r: Result<Option<string>, InstallError>)
    requires DistinctNames(n) && n.backup !in fs.dirs
    modifies fs
    ensures forall q :: q != n.destination && q != n.backup ==>
              fs.Files(q) == old(fs.Files(q)) && (q in fs.dirs <==> q in old(fs.dirs))
    ensures r.Err? ==> r == Err(InstallRolledBack(false)) && fs.dirs == old(fs.dirs)
    ensures r.Ok? ==> r.value in {None, Some(n.backup)} && (r.value.Some? <==> n.backup in fs.dirs)
    ensures r.Ok? && r.value.Some? ==>
              n.destination !in fs.dirs && fs.Files(n.backup) == old(fs.Files(n.destination))
    ensures r.Ok? && r.value.None? ==> fs.dirs == old(fs.dirs)
    ensures fs.failures >= old(fs.failures) && fs.stuck[n.staging] == old(fs.stuck[n.staging])
    ensures fs.failures == old(fs.failures) ==> r.Ok? && (r.value.Some? <==> n.destination in old(fs.dirs))
  {
    var created := fs.Create(n.destination);
    if !created { return Err(InstallRolledBack(false)); }
    var seen, _ := fs.Exists(n.destination);
    if !seen { return Ok(None); }
    var moved := fs.Rename(n.destination, n.backup);
    return if moved then Ok(Some(n.backup)) else Err(InstallRolledBack(false));
  }

  /**
   * From a verified staging directory to a visible version, or back. A failure without the recovery mark
   * has restored everything, except exactly when a rollback without a backup did not see the new version.
   */
  method MakeVisible(fs: FileSystem, n: Names) returns (r: Result<Option<string>, InstallError>, ghost undo: Undo)
    requires DistinctNames(n) && n.backup !in fs.dirs && n.copy !in fs.dirs && n.orphan !in fs.dirs
    requires fs.Files(n.staging) != map[]
    modifies fs
    ensures r.Ok? ==>
              n.orphan !in fs.dirs && r.value in {None, Some(n.backup)} &&
              fs.Files(n.destination) == old(fs.Files(n.staging)) &&
              old(fs.Files(n.destination)) == if r.value.Some? then fs.Files(n.backup) else map[]
    ensures r.Err? ==> OldVersionWhole(fs, n, old(fs.Files(n.destination)))
    ensures r.Err? && !r.error.recoveryRequired ==>
              (fs.Files(n.destination) == old(fs.Files(n.destination)) <==> undo != LEFT_BEHIND)
    ensures undo == LEFT_BEHIND ==>
              r == Err(InstallRolledBack(false)) && fs.Files(n.destination) == old(fs.Files(n.staging))
    ensures fs.Others(n.staging) >= old(fs.Others(n.staging))
    ensures fs.Others(n.staging) == old(fs.Others(n.staging)) ==>
              r.Ok? && (r.value.Some? <==> n.destination in old(fs.dirs))
    ensures r.Ok? ==> n.staging !in fs.dirs && n.copy !in fs.dirs && (r.value.Some? <==> n.backup in fs.dirs)
    ensures r.Err? ==> fs.failures > old(fs.failures)
  {
    undo := NoUndo;
    var aside := SetAside(fs, n);
    if aside.Err? { return Err(aside.error), undo; }
    var backup := aside.value;
    var renamed := fs.Rename(n.staging, n.destination);
    if renamed { return Ok(backup), undo; }
    var switched, undone := SwitchCopy(fs, n, backup);
    undo := undone;
    r := if switched.Ok? then Ok(backup) else Err(switched.error);
  }

  /** The whole move with its outer clean-up: a failed install also drops its staging directory, if it can. */
  method Install(fs: FileSystem, n: Names) returns (r: Result<InstallTransaction, InstallError>, ghost undo: Undo)
    requires DistinctNames(n) && n.backup !in fs.dirs && n.copy !in fs.dirs && n.orphan !in fs.dirs
    requires fs.Files(n.staging) != map[]
    modifies fs
    ensures r.Ok? ==>
              fresh(r.value) && r.value.destination == n.destination && !r.value.finalized &&
              n.orphan !in fs.dirs && r.value.replaced in {None, Some(n.backup)} &&
              fs.Files(n.destination) == old(fs.Files(n.staging)) &&
              r.value.Before(fs) == old(fs.Files(n.destination))
    ensures r.Err? ==> OldVersionWhole(fs, n, old(fs.Files(n.destination)))
    ensures r.Err? && !r.error.recoveryRequired ==>
              (fs.Files(n.destination) == old(fs.Files(n.destination)) <==> undo != LEFT_BEHIND)
    ensures undo == LEFT_BEHIND ==>
              r == Err(InstallRolledBack(false)) && fs.Files(n.destination) == old(fs.Files(n.staging))
    ensures fs.Others(n.staging) >= old(fs.Others(n.staging))
    ensures fs.Others(n.staging) == old(fs.Others(n.staging)) ==>
              r.Ok? && (r.value.replaced.Some? <==> n.destination in old(fs.dirs))
    ensures r.Ok? ==> n.staging !in fs.dirs && n.copy !in fs.dirs && (r.value.replaced.Some? <==> n.backup in fs.dirs)
    ensures r.Err? && fs.failures == old(fs.failures) + 1 ==> n.staging !in fs.dirs
  {
    var moved, undone := MakeVisible(fs, n);
    undo := undone;
    if moved.Ok? {
      var transaction := new InstallTransaction(n.destination, moved.value);
      return Ok(transaction), undo;
    }
    ghost var at, kept := fs.Files(n.destination), fs.Files(n.backup);
    var seen, _ := fs.Exists(n.staging);
    if seen { var _ := fs.RemoveDirAll(n.staging); }
    assert fs.Files(n.destination) == at && fs.Files(n.backup) == kept;
    r := Err(moved.error);
  }

  /**
   * An install whose registration fails afterwards is rolled back by its caller. Unless recovery is asked
   * for, the destination is as before, except exactly when a rollback without a backup did not see the new
   * version: it then still holds the staged files.
   */
  method InstallThenRollback(fs: FileSystem, n: Names) returns (r: Result<(), InstallError>, ghost undo: Undo)
    requires DistinctNames(n) && n.backup !in fs.dirs && n.copy !in fs.dirs && n.orphan !in fs.dirs
    requires fs.Files(n.staging) != map[]
    modifies fs
    ensures OldVersionWhole(fs, n, old(fs.Files(n.destination)))
    ensures r.Ok? || !r.error.recoveryRequired ==>
              (fs.Files(n.destination) == old(fs.Files(n.destination)) <==> undo != LEFT_BEHIND)
    ensures undo == LEFT_BEHIND ==>
              (r.Ok? || !r.error.recoveryRequired) && fs.Files(n.destination) == old(fs.Files(n.staging))
    ensures fs.Others(n.staging) == old(fs.Others(n.staging)) ==>
              r.Ok? && fs.Files(n.destination) == old(fs.Files(n.destination))
  {
    var installed, failed := Install(fs, n);
    if installed.Err? { return Err(installed.error), failed; }
    ghost var hadBackup := installed.value.replaced.Some?;
    var undone, honest := installed.value.Rollback(fs, n.orphan);
    return undone, Undone(hadBackup, honest);
  }
}
