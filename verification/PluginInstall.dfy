/**
 Installing and upgrading a plugin: directory renames and a database row, with compensation.
 Every file or database step may fail, as an oracle decides; a failed step has no effect.
 */
module PluginInstall {
  import opened Text

  datatype Path = Target | Temp | Backup

  class World {
    var dirs: map<Path, string>
    var row: Option<string>
    /** Which steps fail, and how many steps have been taken and have failed so far. */
    const oracle: nat -> bool
    var steps: nat
    var failures: nat

    constructor (dirs: map<Path, string>, row: Option<string>, oracle: nat -> bool)
      ensures this.dirs == dirs && this.row == row && this.oracle == oracle && failures == 0
    {
      this.dirs, this.row, this.oracle := dirs, row, oracle;
      steps, failures := 0, 0;
    }

    /** Counts a step that can succeed when `possible`. */
    method Attempt(possible: bool) returns (ok: bool)
      modifies `steps, `failures
      ensures ok <==> possible && !oracle(old(steps))
      ensures steps == old(steps) + 1 && failures == old(failures) + (if ok then 0 else 1)
    {
      ok := possible && !oracle(steps);
      steps := steps + 1;
      if !ok {
        failures := failures + 1;
      }
    }

    /** `fs::rename` of a directory onto a path that must be free */
    method Rename(from: Path, to: Path) returns (ok: bool)
      requires from != to
      modifies this
      ensures ok ==> from in old(dirs) && to !in old(dirs) && dirs == (old(dirs) - {from})[to := old(dirs)[from]]
      ensures !ok ==> dirs == old(dirs)
      ensures row == old(row) && failures == old(failures) + (if ok then 0 else 1)
    {
      ok := Attempt(from in dirs && to !in dirs);
      if ok {
        dirs := (dirs - {from})[to := dirs[from]];
      }
    }

    /** `fs::remove_dir_all` */
    method RemoveDir(path: Path) returns (ok: bool)
      modifies this
      ensures ok ==> path in old(dirs)
      ensures dirs == if ok then old(dirs) - {path} else old(dirs)
      ensures row == old(row) && failures == old(failures) + (if ok then 0 else 1)
    {
      ok := Attempt(path in dirs);
      if ok {
        dirs := dirs - {path};
      }
    }

    /** `replace_by_plugin_id`, one transaction; there must be a row to replace */
    method ReplaceRow(value: string) returns (ok: bool)
      modifies this
      ensures ok ==> old(row).Some?
      ensures row == if ok then Some(value) else old(row)
      ensures dirs == old(dirs) && failures == old(failures) + (if ok then 0 else 1)
    {
      ok := Attempt(row.Some?);
      if ok {
        row := Some(value);
      }
    }

    method InsertRow(value: string) returns (ok: bool)
      modifies this
      ensures ok ==> old(row).None?
      ensures row == if ok then Some(value) else old(row)
      ensures dirs == old(dirs) && failures == old(failures) + (if ok then 0 else 1)
    {
      ok := Attempt(row.None?);
      if ok {
        row := Some(value);
      }
    }

    /** `restore_backup_dir` */
    method RestoreBackup() returns (ok: bool)
      modifies this
      ensures row == old(row) && failures == old(failures) + (if ok then 0 else 1)
      ensures ok ==> dirs == if Backup in old(dirs) then (old(dirs) - {Backup})[Target := old(dirs)[Backup]] else old(dirs) - {Target}
      ensures !ok ==> dirs == old(dirs) || dirs == old(dirs) - {Target}
    {
      ok := true;
      if Target in dirs {
        ok := RemoveDir(Target);
        if !ok {
          return;
        }
      }
      if Backup in dirs {
        ok := Rename(Backup, Target);
      }
    }

    /** The old directory contents still exist, in place or as the backup. */
    predicate Holds(contents: string)
      reads this
    {
      (Target in dirs && dirs[Target] == contents) || (Backup in dirs && dirs[Backup] == contents)
    }

    /**
     `atomic_upgrade_plugin_dir`. It succeeds exactly when no step fails, and then the new
     directory and row are in place with nothing left over. After a single failed step the old
     directory and row are back and the temporary directory is gone; after any number of failures
     the old contents still exist.
     */
    method AtomicUpgrade(existing: string, newRow: string) returns (ok: bool)
      requires Temp in dirs && row == Some(existing)
      modifies this
      ensures ok <==> failures == old(failures)
      ensures ok ==> dirs == (old(dirs) - {Temp})[Target := old(dirs)[Temp]] && row == Some(newRow)
      ensures failures == old(failures) + 1 ==> dirs == old(dirs) - {Temp} && row == Some(existing)
      ensures !ok && Target in old(dirs) ==> Holds(old(dirs)[Target])
      ensures row == Some(existing) || row == Some(newRow)
    {
      ok := Rename(Target, Backup);
      if !ok {
        var _ := RemoveDir(Temp);
        return;
      }
      ok := Rename(Temp, Target);
      if !ok {
        var _ := RemoveDir(Temp);
        var _ := Rename(Backup, Target);
        return;
      }
      ok := ReplaceRow(newRow);
      if !ok {
        var _ := RemoveDir(Target);
        var _ := RestoreBackup();
        return;
      }
      ok := RemoveDir(Backup);
      if !ok {
        var _ := ReplaceRow(existing);
        var _ := RemoveDir(Target);
        var _ := RestoreBackup();
      }
    }

    /**
     `atomic_install_new_plugin_dir`. An existing target is never touched; otherwise the
     installation succeeds exactly when no step fails, and a single failure leaves no target and
     no row (a failed rename leaves the temporary directory behind).
     */
    method AtomicInstall(newRow: string) returns (ok: bool)
      requires Temp in dirs && row == None
      modifies this
      ensures Target in old(dirs) ==> !ok && dirs == if failures == old(failures) then old(dirs) - {Temp} else old(dirs)
      ensures Target !in old(dirs) ==> (ok <==> failures == old(failures))
      ensures ok ==> dirs == (old(dirs) - {Temp})[Target := old(dirs)[Temp]] && row == Some(newRow)
      ensures Target !in old(dirs) && failures == old(failures) + 1 ==> row == None && (dirs == old(dirs) || dirs == old(dirs) - {Temp})
      ensures !ok ==> row == None
    {
      if Target in dirs {
        var _ := RemoveDir(Temp);
        return false;
      }
      ok := Rename(Temp, Target);
      if !ok {
        return;
      }
      ok := InsertRow(newRow);
      if !ok {
        var _ := RemoveDir(Target);
      }
    }
  }
}
