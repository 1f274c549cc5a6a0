/** The two halves of the tool together: a successful `replace` followed
    by `restore_backup` on the same backup root puts the live file back. */
module Protocol {
  import opened Text
  import opened Paths
  import opened FileIO
  import Mutator
  import Restorer

  /** The state a successful replace leaves, undone: the backup tree
      holds only the new backup, which restores to the live path. */
  lemma UndoState(fs: FileSystem, mid: FileSystem, path: Path, backupDir: string, replaced: string)
    requires Restorer.MirrorFiles(fs, backupDir) == {}
    requires |backupDir| > 0 && !Contains(backupDir, "//")
    requires |path| >= 2 && path[0] == '/' && !Contains(path, "//")
    requires !InMirror(path, backupDir)
    requires path in fs.files && path !in fs.unwritable
    requires mid.unwritable == fs.unwritable
    requires mid.files == fs.files[BackupPath(backupDir, path) := Trim(fs.files[path])][path := replaced]
    ensures Restorer.IsWalk([BackupPath(backupDir, path)], mid, backupDir)
    ensures Restorer.Restore(mid, backupDir, [BackupPath(backupDir, path)])
            == Restorer.Outcome(Restorer.Restored, fs.(files := fs.files[path := Trim(fs.files[path])]))
  {
    MirrorRoundTrip(backupDir, path);
    TrimIdempotent(fs.files[path]);
    UndoSingleBackup(fs, mid, path, BackupPath(backupDir, path), backupDir, Trim(fs.files[path]), replaced);
  }

  lemma UndoSingleBackup(fs: FileSystem, mid: FileSystem, path: Path, backup: Path, backupDir: string,
                         original: string, replaced: string)
    requires Restorer.MirrorFiles(fs, backupDir) == {}
    requires InMirror(backup, backupDir) && RestoreTarget(backup, backupDir) == path
    requires !InMirror(path, backupDir)
    requires path !in fs.unwritable
    requires Trim(original) == original
    requires mid.unwritable == fs.unwritable
    requires mid.files == fs.files[backup := original][path := replaced]
    ensures Restorer.IsWalk([backup], mid, backupDir)
    ensures Restorer.Restore(mid, backupDir, [backup])
            == Restorer.Outcome(Restorer.Restored, fs.(files := fs.files[path := original]))
  {
    assert backup != path;
    assert Restorer.MirrorFiles(mid, backupDir) == {backup};
    Restorer.RestoreSingle(mid, backupDir, backup);
    var restored := mid.(files := mid.files[path := original]);
    OverwriteTwice(fs.files[backup := original], path, replaced, original);
    DropMirrorEntry(fs, restored, backupDir, backup, path, original);
  }

  lemma OverwriteTwice<K, V>(m: map<K, V>, k: K, a: V, b: V)
    ensures m[k := a][k := b] == m[k := b]
  {
  }

  /** Removing the tree from a filesystem that gained one file below the
      root and one live file above it leaves the live file alone. */
  lemma DropMirrorEntry(fs: FileSystem, restored: FileSystem, backupDir: string, backup: Path, path: Path,
                        text: string)
    requires Restorer.MirrorFiles(fs, backupDir) == {}
    requires InMirror(backup, backupDir) && !InMirror(path, backupDir)
    requires restored.unwritable == fs.unwritable
    requires restored.files == fs.files[backup := text][path := text]
    ensures Restorer.RemoveMirror(restored, backupDir) == fs.(files := fs.files[path := text])
  {
    var r := Restorer.RemoveMirror(restored, backupDir);
    var want := fs.files[path := text];
    forall p | p in r.files ensures p in want && r.files[p] == want[p] {
    }
    forall p | p in want ensures p in r.files {
      assert p !in Restorer.MirrorFiles(fs, backupDir);
    }
    assert r.files == want;
  }

  /** Undo: start from a filesystem with no backup tree, replace in a
      `/`-rooted live path outside the backup root, then restore. The only
      file the walk sees is the new backup, the restore succeeds, the
      backup tree is gone, and the live file holds its original text,
      trimmed; nothing else differs from the start. */
  lemma ReplaceThenRestore(fs: FileSystem, path: Path, oldText: string, newText: string, backupDir: string,
                           answer: Mutator.Answer, patternCompiles: bool)
    requires Restorer.MirrorFiles(fs, backupDir) == {}
    requires |backupDir| > 0 && !Contains(backupDir, "//")
    requires |path| >= 2 && path[0] == '/' && !Contains(path, "//")
    requires !InMirror(path, backupDir)
    requires Mutator.Replace(fs, path, oldText, newText, backupDir, answer, patternCompiles).status
             == Mutator.Replaced
    ensures var mid := Mutator.Replace(fs, path, oldText, newText, backupDir, answer, patternCompiles).fs;
            && Restorer.IsWalk([BackupPath(backupDir, path)], mid, backupDir)
            && var o := Restorer.Restore(mid, backupDir, [BackupPath(backupDir, path)]);
               && o.status == Restorer.Restored
               && o.fs == fs.(files := fs.files[path := Trim(fs.files[path])])
  {
    var o := Mutator.Replace(fs, path, oldText, newText, backupDir, answer, patternCompiles);
    Mutator.ReplacedState(fs, path, oldText, newText, backupDir, answer, patternCompiles);
    UndoState(fs, o.fs, path, backupDir, o.writes[1].1);
  }

  /** A live file without surrounding whitespace comes back exactly, so
      the filesystem is the one before the replace. */
  lemma ReplaceThenRestoreIsIdentity(fs: FileSystem, path: Path, oldText: string, newText: string,
                                     backupDir: string, answer: Mutator.Answer, patternCompiles: bool)
    requires Restorer.MirrorFiles(fs, backupDir) == {}
    requires |backupDir| > 0 && !Contains(backupDir, "//")
    requires |path| >= 2 && path[0] == '/' && !Contains(path, "//")
    requires !InMirror(path, backupDir)
    requires Mutator.Replace(fs, path, oldText, newText, backupDir, answer, patternCompiles).status
             == Mutator.Replaced
    requires NoEdgeWhitespace(fs.files[path])
    ensures var mid := Mutator.Replace(fs, path, oldText, newText, backupDir, answer, patternCompiles).fs;
            && Restorer.IsWalk([BackupPath(backupDir, path)], mid, backupDir)
            && Restorer.Restore(mid, backupDir, [BackupPath(backupDir, path)]).fs == fs
  {
    ReplaceThenRestore(fs, path, oldText, newText, backupDir, answer, patternCompiles);
    TrimmedFileKept(fs, path);
  }

  lemma TrimmedFileKept(fs: FileSystem, path: Path)
    requires path in fs.files && NoEdgeWhitespace(fs.files[path])
    ensures fs.(files := fs.files[path := Trim(fs.files[path])]) == fs
  {
    var t := fs.files[path];
    assert [] + t + [] == t;
    TrimOfPadded([], t, []);
    assert fs.files[path := t] == fs.files;
  }
}
