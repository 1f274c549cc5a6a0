/** The restorer, `restore_backup(backup_dir)`: walk every file below the
    backup root, copy its trimmed text back to the live path its mirrored
    path names, then delete the whole backup tree. The walk's visiting
    order belongs to the directory walker and is a parameter here. */
module Restorer {
  import opened Text
  import opened Paths
  import opened FileIO

  datatype Status = Restored | Failed(error: Error)

  datatype Outcome = Outcome(status: Status, fs: FileSystem)

  /** The files below the backup root. */
  function MirrorFiles(fs: FileSystem, backupDir: string): (files: set<Path>)
    ensures forall p :: p in files <==> p in fs.files && InMirror(p, backupDir)
  {
    set p | p in fs.files && InMirror(p, backupDir)
  }

  predicate Distinct(walk: seq<Path>) {
    forall i, j :: 0 <= i < j < |walk| ==> walk[i] != walk[j]
  }

  /** `walk` visits every file below the backup root exactly once. */
  predicate IsWalk(walk: seq<Path>, fs: FileSystem, backupDir: string) {
    && (forall i :: 0 <= i < |walk| ==> walk[i] in fs.files && InMirror(walk[i], backupDir))
    && (forall p :: p in fs.files && InMirror(p, backupDir) ==> p in walk)
    && Distinct(walk)
  }

  predicate AllInMirror(walk: seq<Path>, backupDir: string) {
    forall i :: 0 <= i < |walk| ==> InMirror(walk[i], backupDir)
  }

  /** No entry of the walk is the restore target of another, so the order
      of the walk cannot change what any entry reads. */
  predicate TargetsOutsideWalk(walk: seq<Path>, backupDir: string)
    requires AllInMirror(walk, backupDir)
  {
    forall i, j :: 0 <= i < |walk| && 0 <= j < |walk| ==> RestoreTarget(walk[i], backupDir) != walk[j]
  }

  /** No file below the root restores to a path below the root, so the
      final removal cannot take a restored file with it. */
  predicate TargetsOutsideMirror(fs: FileSystem, backupDir: string) {
    forall p :: p in fs.files && InMirror(p, backupDir) ==> !InMirror(RestoreTarget(p, backupDir), backupDir)
  }

  /** The live paths the entries of `walk` restore to. */
  function Targets(walk: seq<Path>, backupDir: string): (targets: set<Path>)
    requires AllInMirror(walk, backupDir)
    ensures forall i :: 0 <= i < |walk| ==> RestoreTarget(walk[i], backupDir) in targets
    ensures forall t :: t in targets ==> exists i :: 0 <= i < |walk| && t == RestoreTarget(walk[i], backupDir)
  {
    set i | 0 <= i < |walk| :: RestoreTarget(walk[i], backupDir)
  }

  /** The body of the walk: for each entry in turn, load it (trimmed) from
      the filesystem as it stands and save it to its restore target; the
      first failed save ends the walk. */
  function RestoreEntries(fs: FileSystem, backupDir: string, walk: seq<Path>): (o: Outcome)
    requires AllInMirror(walk, backupDir)
    requires forall i :: 0 <= i < |walk| ==> walk[i] in fs.files
    ensures o.fs.unwritable == fs.unwritable
    ensures fs.files.Keys <= o.fs.files.Keys
    ensures o.status.Failed? ==> o.status.error.WriteFailed?
    decreases |walk|
  {
    if |walk| == 0 then Outcome(Restored, fs)
    else
      var entry := walk[0];
      match Load(fs, entry)
      case Err(e) => Outcome(Failed(e), fs)
      case Ok(content) =>
        match Save(fs, RestoreTarget(entry, backupDir), content)
        case Err(e) => Outcome(Failed(e), fs)
        case Ok(next) =>
          assert AllInMirror(walk[1..], backupDir);
          RestoreEntries(next, backupDir, walk[1..])
  }

  lemma TargetsCons(walk: seq<Path>, backupDir: string)
    requires |walk| > 0 && AllInMirror(walk, backupDir)
    ensures AllInMirror(walk[1..], backupDir)
    ensures Targets(walk, backupDir)
            == {RestoreTarget(walk[0], backupDir)} + Targets(walk[1..], backupDir)
  {
    var rest := walk[1..];
    var t0 := RestoreTarget(walk[0], backupDir);
    forall t | t in Targets(rest, backupDir) ensures t in Targets(walk, backupDir) {
      var i :| 0 <= i < |rest| && t == RestoreTarget(rest[i], backupDir);
      assert rest[i] == walk[i + 1];
    }
    forall t | t in Targets(walk, backupDir) ensures t in {t0} + Targets(rest, backupDir) {
      var i :| 0 <= i < |walk| && t == RestoreTarget(walk[i], backupDir);
      if i > 0 {
        assert walk[i] == rest[i - 1];
      }
    }
  }

  /** What a walk without repeats and without entries that are targets
      hands on to its tail. */
  lemma WalkTail(walk: seq<Path>, backupDir: string)
    requires |walk| > 0 && AllInMirror(walk, backupDir)
    ensures AllInMirror(walk[1..], backupDir)
    ensures Distinct(walk) ==> Distinct(walk[1..])
    ensures Distinct(walk) ==> RestoreTarget(walk[0], backupDir) !in Targets(walk[1..], backupDir)
    ensures TargetsOutsideWalk(walk, backupDir)
            ==> && TargetsOutsideWalk(walk[1..], backupDir)
                && forall i :: 1 <= i < |walk| ==> walk[i] != RestoreTarget(walk[0], backupDir)
  {
    var rest := walk[1..];
    var t0 := RestoreTarget(walk[0], backupDir);
    if Distinct(walk) {
      forall i | 0 <= i < |rest| ensures RestoreTarget(rest[i], backupDir) != t0 {
        assert rest[i] == walk[i + 1];
        RestoreTargetInjective(walk[0], rest[i], backupDir);
      }
    }
    if TargetsOutsideWalk(walk, backupDir) {
      forall i, j | 0 <= i < |rest| && 0 <= j < |rest|
        ensures RestoreTarget(rest[i], backupDir) != rest[j]
      {
        assert rest[i] == walk[i + 1] && rest[j] == walk[j + 1];
      }
    }
  }

  /** One step of the walk: the first entry's target is written, or the
      walk stops there. */
  lemma WalkStep(fs: FileSystem, backupDir: string, walk: seq<Path>)
    requires |walk| > 0 && AllInMirror(walk, backupDir)
    requires forall i :: 0 <= i < |walk| ==> walk[i] in fs.files
    ensures AllInMirror(walk[1..], backupDir)
    ensures var t0 := RestoreTarget(walk[0], backupDir);
            var next := fs.(files := fs.files[t0 := Trim(fs.files[walk[0]])]);
            && (t0 in fs.unwritable ==> RestoreEntries(fs, backupDir, walk) == Outcome(Failed(WriteFailed(t0)), fs))
            && (t0 !in fs.unwritable
                ==> && (forall i :: 0 <= i < |walk[1..]| ==> walk[1..][i] in next.files)
                    && RestoreEntries(fs, backupDir, walk) == RestoreEntries(next, backupDir, walk[1..]))
  {
    assert forall i :: 0 <= i < |walk[1..]| ==> walk[1..][i] == walk[i + 1];
  }

  /** The walk touches nothing but restore targets. */
  lemma {:induction false} WalkFrame(fs: FileSystem, backupDir: string, walk: seq<Path>)
    requires AllInMirror(walk, backupDir)
    requires forall i :: 0 <= i < |walk| ==> walk[i] in fs.files
    ensures var o := RestoreEntries(fs, backupDir, walk);
            && o.fs.files.Keys <= fs.files.Keys + Targets(walk, backupDir)
            && forall q :: q in fs.files && q !in Targets(walk, backupDir) ==> o.fs.files[q] == fs.files[q]
    decreases |walk|
  {
    if |walk| > 0 {
      var t0 := RestoreTarget(walk[0], backupDir);
      TargetsCons(walk, backupDir);
      WalkStep(fs, backupDir, walk);
      if t0 !in fs.unwritable {
        var next := fs.(files := fs.files[t0 := Trim(fs.files[walk[0]])]);
        WalkFrame(next, backupDir, walk[1..]);
      }
    }
  }

  /** Every entry of the walk restores to a path that may be written. */
  predicate TargetsWritable(walk: seq<Path>, fs: FileSystem, backupDir: string)
    requires AllInMirror(walk, backupDir)
  {
    forall i :: 0 <= i < |walk| ==> RestoreTarget(walk[i], backupDir) !in fs.unwritable
  }

  lemma TargetsWritableCons(walk: seq<Path>, fs: FileSystem, next: FileSystem, backupDir: string)
    requires |walk| > 0 && AllInMirror(walk, backupDir)
    requires next.unwritable == fs.unwritable
    ensures AllInMirror(walk[1..], backupDir)
    ensures TargetsWritable(walk, fs, backupDir)
            <==> RestoreTarget(walk[0], backupDir) !in fs.unwritable && TargetsWritable(walk[1..], next, backupDir)
  {
    assert forall i :: 1 <= i < |walk| ==> walk[i] == walk[1..][i - 1];
    if RestoreTarget(walk[0], backupDir) !in fs.unwritable && TargetsWritable(walk[1..], next, backupDir) {
      forall i | 0 <= i < |walk| ensures RestoreTarget(walk[i], backupDir) !in fs.unwritable {
        if i > 0 {
          assert walk[i] == walk[1..][i - 1];
        }
      }
    }
  }

  /** The walk completes exactly when every restore target may be
      written; otherwise it stops at the first that may not. */
  lemma {:induction false} WalkCompletes(fs: FileSystem, backupDir: string, walk: seq<Path>)
    requires AllInMirror(walk, backupDir)
    requires forall i :: 0 <= i < |walk| ==> walk[i] in fs.files
    ensures RestoreEntries(fs, backupDir, walk).status == Restored <==> TargetsWritable(walk, fs, backupDir)
    decreases |walk|
  {
    if |walk| > 0 {
      var t0 := RestoreTarget(walk[0], backupDir);
      var next := fs.(files := fs.files[t0 := Trim(fs.files[walk[0]])]);
      WalkStep(fs, backupDir, walk);
      TargetsWritableCons(walk, fs, next, backupDir);
      if t0 !in fs.unwritable {
        WalkCompletes(next, backupDir, walk[1..]);
      }
    }
  }

  /** A completed walk without repeated entries, in which no entry is
      another's target, leaves each target holding its entry's original
      trimmed text, whatever the order of the walk. */
  lemma {:induction false} WalkRestoresContent(fs: FileSystem, backupDir: string, walk: seq<Path>)
    requires AllInMirror(walk, backupDir)
    requires forall i :: 0 <= i < |walk| ==> walk[i] in fs.files
    requires Distinct(walk) && TargetsOutsideWalk(walk, backupDir)
    requires RestoreEntries(fs, backupDir, walk).status == Restored
    ensures forall i :: 0 <= i < |walk|
              ==> && RestoreTarget(walk[i], backupDir) in RestoreEntries(fs, backupDir, walk).fs.files
                  && RestoreEntries(fs, backupDir, walk).fs.files[RestoreTarget(walk[i], backupDir)]
                     == Trim(fs.files[walk[i]])
    decreases |walk|
  {
    if |walk| > 0 {
      var rest := walk[1..];
      var t0 := RestoreTarget(walk[0], backupDir);
      var next := fs.(files := fs.files[t0 := Trim(fs.files[walk[0]])]);
      var o := RestoreEntries(next, backupDir, rest);
      TargetsCons(walk, backupDir);
      WalkTail(walk, backupDir);
      WalkStep(fs, backupDir, walk);
      WalkRestoresContent(next, backupDir, rest);
      WalkFrame(next, backupDir, rest);
      forall i | 1 <= i < |walk|
        ensures RestoreTarget(walk[i], backupDir) in o.fs.files
        ensures o.fs.files[RestoreTarget(walk[i], backupDir)] == Trim(fs.files[walk[i]])
      {
        assert walk[i] == rest[i - 1];
      }
    }
  }

  /** Everything except the tree below the backup root. */
  function RemoveMirror(fs: FileSystem, backupDir: string): (r: FileSystem)
    ensures r.unwritable == fs.unwritable
    ensures forall p :: p in r.files <==> p in fs.files && !InMirror(p, backupDir)
    ensures forall p :: p in r.files ==> r.files[p] == fs.files[p]
  {
    fs.(files := map p | p in fs.files && !InMirror(p, backupDir) :: fs.files[p])
  }

  /** `restore_backup`. When nothing lies below the root there is no tree
      to delete and the final removal fails. */
  function Restore(fs: FileSystem, backupDir: string, walk: seq<Path>): (o: Outcome)
    requires IsWalk(walk, fs, backupDir)
    // no backup tree: the removal fails and nothing changes
    ensures MirrorFiles(fs, backupDir) == {} ==> o == Outcome(Failed(RemoveFailed(backupDir)), fs)
    // after success nothing remains below the root
    ensures o.status == Restored ==> MirrorFiles(o.fs, backupDir) == {}
    // after a failed save the tree is still there
    ensures o.status.Failed? ==> MirrorFiles(fs, backupDir) <= o.fs.files.Keys
    ensures o.fs.unwritable == fs.unwritable
  {
    var walked := RestoreEntries(fs, backupDir, walk);
    if walked.status.Failed? then walked
    else if MirrorFiles(walked.fs, backupDir) == {} then
      Outcome(Failed(RemoveFailed(backupDir)), walked.fs)
    else
      Outcome(Restored, RemoveMirror(walked.fs, backupDir))
  }

  /** The restore in three cases: no tree, a failed save, success. */
  lemma RestoreCases(fs: FileSystem, backupDir: string, walk: seq<Path>)
    requires IsWalk(walk, fs, backupDir)
    ensures var walked := RestoreEntries(fs, backupDir, walk);
            Restore(fs, backupDir, walk)
            == if MirrorFiles(fs, backupDir) == {} then Outcome(Failed(RemoveFailed(backupDir)), fs)
               else if walked.status.Failed? then walked
               else Outcome(Restored, RemoveMirror(walked.fs, backupDir))
  {
    var walked := RestoreEntries(fs, backupDir, walk);
    if MirrorFiles(fs, backupDir) != {} {
      var p :| p in MirrorFiles(fs, backupDir);
      assert p in walked.fs.files;
    }
  }

  /** The restore succeeds exactly when there is a backup tree and every
      file in it may be written back to its live path. */
  lemma RestoreSucceedsIff(fs: FileSystem, backupDir: string, walk: seq<Path>)
    requires IsWalk(walk, fs, backupDir)
    ensures Restore(fs, backupDir, walk).status == Restored
            <==> && MirrorFiles(fs, backupDir) != {}
                 && forall p :: p in MirrorFiles(fs, backupDir) ==> RestoreTarget(p, backupDir) !in fs.unwritable
  {
    RestoreCases(fs, backupDir, walk);
    WalkCompletes(fs, backupDir, walk);
    var all := TargetsWritable(walk, fs, backupDir);
    assert all <==> forall p :: p in MirrorFiles(fs, backupDir) ==> RestoreTarget(p, backupDir) !in fs.unwritable by {
      if all {
        forall p | p in MirrorFiles(fs, backupDir) ensures RestoreTarget(p, backupDir) !in fs.unwritable {
          assert p in walk;
        }
      }
    }
  }

  /** After a successful restore each file of the backup tree has been
      copied, trimmed, to its live path, when no restore target lies inside
      the tree itself. */
  lemma RestoreRestoresContent(fs: FileSystem, backupDir: string, walk: seq<Path>)
    requires IsWalk(walk, fs, backupDir)
    requires TargetsOutsideMirror(fs, backupDir)
    requires Restore(fs, backupDir, walk).status == Restored
    ensures var o := Restore(fs, backupDir, walk);
            forall p :: p in MirrorFiles(fs, backupDir)
              ==> && RestoreTarget(p, backupDir) in o.fs.files
                  && o.fs.files[RestoreTarget(p, backupDir)] == Trim(fs.files[p])
  {
    RestoreCases(fs, backupDir, walk);
    assert TargetsOutsideWalk(walk, backupDir);
    WalkRestoresContent(fs, backupDir, walk);
    var walked := RestoreEntries(fs, backupDir, walk);
    forall p | p in MirrorFiles(fs, backupDir)
      ensures RestoreTarget(p, backupDir) in Restore(fs, backupDir, walk).fs.files
      ensures Restore(fs, backupDir, walk).fs.files[RestoreTarget(p, backupDir)] == Trim(fs.files[p])
    {
      assert p in walk;
      var i :| 0 <= i < |walk| && walk[i] == p;
      assert RestoreTarget(p, backupDir) in walked.fs.files;
    }
  }

  /** Files outside the backup tree that are no restore target keep their
      text, whatever the outcome. */
  lemma RestoreFrame(fs: FileSystem, backupDir: string, walk: seq<Path>)
    requires IsWalk(walk, fs, backupDir)
    ensures var o := Restore(fs, backupDir, walk);
            forall q :: q in fs.files && !InMirror(q, backupDir) && q !in Targets(walk, backupDir)
              ==> q in o.fs.files && o.fs.files[q] == fs.files[q]
  {
    RestoreCases(fs, backupDir, walk);
    WalkFrame(fs, backupDir, walk);
  }

  /** Restoring a tree that holds a single file writes that file back to
      its live path and removes it. */
  lemma RestoreSingle(fs: FileSystem, backupDir: string, backup: Path)
    requires MirrorFiles(fs, backupDir) == {backup}
    requires RestoreTarget(backup, backupDir) !in fs.unwritable
    ensures IsWalk([backup], fs, backupDir)
    ensures Restore(fs, backupDir, [backup])
            == Outcome(Restored, RemoveMirror(fs.(files := fs.files[RestoreTarget(backup, backupDir)
                                                                    := Trim(fs.files[backup])]), backupDir))
  {
    var walk := [backup];
    assert IsWalk(walk, fs, backupDir);
    WalkStep(fs, backupDir, walk);
    assert walk[1..] == [];
    RestoreCases(fs, backupDir, walk);
  }

  /** The scenario of the restore test: a backup root without a trailing
      separator holding one mirrored file, `#ff00ff`, for a `/`-rooted live
      path outside the root. Restoring writes the text to the live path and
      leaves nothing else. */
  lemma RestoreScenario(backupDir: string, target: Path)
    requires |backupDir| > 0 && backupDir[|backupDir| - 1] != '/' && !Contains(backupDir, "//")
    requires |target| >= 2 && target[0] == '/' && !Contains(target, "//")
    requires !InMirror(target, backupDir)
    ensures var fs := FileSystem(map[backupDir + target := "#ff00ff"], {});
            && IsWalk([backupDir + target], fs, backupDir)
            && Restore(fs, backupDir, [backupDir + target])
               == Outcome(Restored, FileSystem(map[target := "#ff00ff"], {}))
  {
    var backup := backupDir + target;
    var text := "#ff00ff";
    var fs := FileSystem(map[backup := text], {});
    PlainRootMirrors(backupDir, target);
    assert MirrorFiles(fs, backupDir) == {backup};
    RestoreSingle(fs, backupDir, backup);
    TrimmedColour();
    var r := RemoveMirror(fs.(files := fs.files[target := text]), backupDir);
    assert r.files == map[target := text];
  }

  lemma TrimmedColour()
    ensures Trim("#ff00ff") == "#ff00ff"
  {
    assert NoEdgeWhitespace("#ff00ff");
    assert [] + "#ff00ff" + [] == "#ff00ff";
    TrimOfPadded([], "#ff00ff", []);
  }

  lemma PlainRootMirrors(backupDir: string, target: Path)
    requires |backupDir| > 0 && backupDir[|backupDir| - 1] != '/' && !Contains(backupDir, "//")
    requires |target| >= 2 && target[0] == '/' && !Contains(target, "//")
    ensures InMirror(backupDir + target, backupDir)
    ensures RestoreTarget(backupDir + target, backupDir) == target
  {
    MirrorRoundTrip(backupDir, target);
    JoinPlain(backupDir, target);
  }
}
