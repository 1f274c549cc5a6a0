/** The mutator, `replace(path, old, new, backup_dir)`: decide whether to
    act, save the original text to the backup mirror, substitute, and write
    the result back over the live file. The confirmation line read from
    standard input and the regular-expression engine's verdict on the
    pattern are parameters. */
module Mutator {
  import opened Text
  import opened Paths
  import opened FileIO
  import opened Substitution

  /** What reading the confirmation line produced. */
  datatype Answer = Line(text: string) | ReadFailed

  /** The three successful endings are distinguished; all of them exit
      with success. */
  datatype Status = Replaced | NoMatch | Declined | Failed(error: Error)

  /** The final status, the filesystem afterwards, and the saves that
      succeeded, in the order they happened. */
  datatype Outcome = Outcome(status: Status, fs: FileSystem, writes: seq<(Path, string)>)

  /** The user goes on only when the line, lower-cased and trimmed, is `y`:
      exactly when it is `y` or `Y` once the surrounding whitespace (the line
      break included) is gone. */
  predicate Affirmative(line: string)
    ensures Affirmative(line) <==> Trim(line) == "y" || Trim(line) == "Y"
  {
    TrimLower(line);
    LowerIsY(Trim(line));
    Trim(Lower(line)) == "y"
  }

  lemma LowerIsY(t: string)
    ensures Lower(t) == "y" <==> t == "y" || t == "Y"
  {
    if |t| == 1 {
      assert Lower(t) == [LowerChar(t[0])];
    }
  }

  /** The gate lets a run through: the text contains `old`, and when it
      already contains `new` the user has confirmed. */
  predicate GatePasses(content: string, oldText: string, newText: string, answer: Answer) {
    && ContainsIgnoringCase(content, oldText)
    && (ContainsIgnoringCase(content, newText) ==> answer.Line? && Affirmative(answer.text))
  }

  /** The part of `replace` after the decision to act: save the original
      text to the backup path, compile the pattern, substitute, and save
      the result over the live path, stopping at the first failure. */
  function BackupThenWrite(fs: FileSystem, path: Path, content: string, oldText: string,
                           newText: string, backupDir: string, patternCompiles: bool): (o: Outcome)
    ensures o.fs == ApplyWrites(fs, o.writes)
    ensures |o.writes| <= 2
    ensures |o.writes| >= 1 ==> o.writes[0] == (BackupPath(backupDir, path), content)
    ensures |o.writes| == 2 ==> o.writes[1] == (path, ReplaceAll(content, oldText, newText))
    ensures o.status == Replaced <==> |o.writes| == 2
    ensures o.status != Replaced ==> o.status.Failed?
    ensures o.writes == [] <==> BackupPath(backupDir, path) in fs.unwritable
    ensures o.status == Replaced
            <==> patternCompiles && BackupPath(backupDir, path) !in fs.unwritable && path !in fs.unwritable
    // the first failure decides the error: the backup save, then the
    // pattern, then the live save
    ensures BackupPath(backupDir, path) in fs.unwritable
            ==> o.status == Failed(WriteFailed(BackupPath(backupDir, path)))
    ensures BackupPath(backupDir, path) !in fs.unwritable && !patternCompiles
            ==> o.status == Failed(PatternError) && |o.writes| == 1
    ensures BackupPath(backupDir, path) !in fs.unwritable && patternCompiles && path in fs.unwritable
            ==> o.status == Failed(WriteFailed(path)) && |o.writes| == 1
  {
    var backup := BackupPath(backupDir, path);
    match Save(fs, backup, content)
    case Err(e) => Outcome(Failed(e), fs, [])
    case Ok(saved) =>
      ApplyOne(fs, backup, content);
      if !patternCompiles then Outcome(Failed(PatternError), saved, [(backup, content)])
      else
        var replaced := ReplaceAll(content, oldText, newText);
        match Save(saved, path, replaced)
        case Err(e) => Outcome(Failed(e), saved, [(backup, content)])
        case Ok(written) =>
          ApplyTwo(fs, backup, content, path, replaced);
          Outcome(Replaced, written, [(backup, content), (path, replaced)])
  }

  lemma ApplyOne(fs: FileSystem, p: Path, d: string)
    ensures ApplyWrites(fs, [(p, d)]) == fs.(files := fs.files[p := d])
  {
    assert [(p, d)][1..] == [];
  }

  lemma ApplyTwo(fs: FileSystem, p: Path, d: string, q: Path, e: string)
    ensures ApplyWrites(fs, [(p, d), (q, e)]) == fs.(files := fs.files[p := d][q := e])
  {
    assert [(p, d), (q, e)][1..] == [(q, e)];
    ApplyOne(fs.(files := fs.files[p := d]), q, e);
  }

  /** `replace`: abort with no change when the trimmed live text does not
      contain `old` ignoring case, or when it already contains `new` and
      the user does not confirm; otherwise back up, then substitute. */
  function Replace(fs: FileSystem, path: Path, oldText: string, newText: string, backupDir: string,
                   answer: Answer, patternCompiles: bool): (o: Outcome)
    // a live file that cannot be loaded fails before anything happens
    ensures path !in fs.files ==> o == Outcome(Failed(NotFound(path)), fs, [])
    // no match: nothing changes, no backup
    ensures path in fs.files && !ContainsIgnoringCase(Trim(fs.files[path]), oldText)
            ==> o == Outcome(NoMatch, fs, [])
    // the replacement is already present and the user does not confirm
    ensures && path in fs.files
            && ContainsIgnoringCase(Trim(fs.files[path]), oldText)
            && ContainsIgnoringCase(Trim(fs.files[path]), newText)
            ==> && (answer.ReadFailed? ==> o == Outcome(Failed(StdinFailed), fs, []))
                && (answer.Line? && !Affirmative(answer.text) ==> o == Outcome(Declined, fs, []))
    // nothing but the logged saves changes the filesystem
    ensures o.fs == ApplyWrites(fs, o.writes)
    // backup before write: the first save is the original text to the
    // backup path, and the live path is saved only second
    ensures |o.writes| <= 2
    ensures |o.writes| >= 1
            ==> (path in fs.files && o.writes[0] == (BackupPath(backupDir, path), Trim(fs.files[path])))
    ensures |o.writes| == 2 ==> o.writes[1].0 == path
    ensures o.status == Replaced <==> |o.writes| == 2
    // a run succeeds exactly when the gate lets it through, the pattern
    // compiles and both saves are allowed
    ensures o.status == Replaced
            <==> && path in fs.files
                 && ContainsIgnoringCase(Trim(fs.files[path]), oldText)
                 && (ContainsIgnoringCase(Trim(fs.files[path]), newText)
                     ==> answer.Line? && Affirmative(answer.text))
                 && patternCompiles
                 && BackupPath(backupDir, path) !in fs.unwritable
                 && path !in fs.unwritable
    ensures o.status == Replaced
            ==> o.writes[1].1 == ReplaceAll(Trim(fs.files[path]), oldText, newText)
    // each gate ending happens exactly on its condition
    ensures o.status == NoMatch
            <==> path in fs.files && !ContainsIgnoringCase(Trim(fs.files[path]), oldText)
    ensures o.status == Declined
            <==> && path in fs.files
                 && ContainsIgnoringCase(Trim(fs.files[path]), oldText)
                 && ContainsIgnoringCase(Trim(fs.files[path]), newText)
                 && answer.Line? && !Affirmative(answer.text)
    ensures o.status == Failed(StdinFailed)
            <==> && path in fs.files
                 && ContainsIgnoringCase(Trim(fs.files[path]), oldText)
                 && ContainsIgnoringCase(Trim(fs.files[path]), newText)
                 && answer.ReadFailed?
    // past the gate, the first failure decides the error: the backup save,
    // then the pattern, then the live save
    ensures path in fs.files && GatePasses(Trim(fs.files[path]), oldText, newText, answer)
            ==> && (BackupPath(backupDir, path) in fs.unwritable
                    ==> o == Outcome(Failed(WriteFailed(BackupPath(backupDir, path))), fs, []))
                && (BackupPath(backupDir, path) !in fs.unwritable && !patternCompiles
                    ==> o.status == Failed(PatternError) && |o.writes| == 1)
                && (BackupPath(backupDir, path) !in fs.unwritable && patternCompiles && path in fs.unwritable
                    ==> o.status == Failed(WriteFailed(path)) && |o.writes| == 1)
  {
    match Load(fs, path)
    case Err(e) => Outcome(Failed(e), fs, [])
    case Ok(content) =>
      if !ContainsIgnoringCase(content, oldText) then Outcome(NoMatch, fs, [])
      else if ContainsIgnoringCase(content, newText) && answer.ReadFailed? then
        Outcome(Failed(StdinFailed), fs, [])
      else if ContainsIgnoringCase(content, newText) && !Affirmative(answer.text) then
        Outcome(Declined, fs, [])
      else
        BackupThenWrite(fs, path, content, oldText, newText, backupDir, patternCompiles)
  }

  /** The filesystem after a successful run, in terms of the one before:
      the backup path holds the trimmed original, then the live path holds
      the substituted text; nothing else changes. */
  lemma ReplacedState(fs: FileSystem, path: Path, oldText: string, newText: string, backupDir: string,
                      answer: Answer, patternCompiles: bool)
    requires Replace(fs, path, oldText, newText, backupDir, answer, patternCompiles).status == Replaced
    ensures path in fs.files && path !in fs.unwritable
    ensures var o := Replace(fs, path, oldText, newText, backupDir, answer, patternCompiles);
            && o.fs.unwritable == fs.unwritable
            && o.fs.files
               == fs.files[BackupPath(backupDir, path) := Trim(fs.files[path])]
                          [path := ReplaceAll(Trim(fs.files[path]), oldText, newText)]
  {
    var o := Replace(fs, path, oldText, newText, backupDir, answer, patternCompiles);
    assert o.writes == [o.writes[0], o.writes[1]];
    ApplyTwo(fs, o.writes[0].0, o.writes[0].1, o.writes[1].0, o.writes[1].1);
  }

  /** Backup fidelity: after a successful run the backup path holds the
      original trimmed text, unless the backup path is the live path
      itself (an empty backup root), which the second save overwrites. */
  lemma BackupFidelity(fs: FileSystem, path: Path, oldText: string, newText: string, backupDir: string,
                       answer: Answer, patternCompiles: bool)
    requires Replace(fs, path, oldText, newText, backupDir, answer, patternCompiles).status == Replaced
    requires BackupPath(backupDir, path) != path
    ensures var o := Replace(fs, path, oldText, newText, backupDir, answer, patternCompiles);
            && BackupPath(backupDir, path) in o.fs.files
            && o.fs.files[BackupPath(backupDir, path)] == Trim(fs.files[path])
            && path in o.fs.files
            && o.fs.files[path] == ReplaceAll(Trim(fs.files[path]), oldText, newText)
  {
    ReplacedState(fs, path, oldText, newText, backupDir, answer, patternCompiles);
  }

  /** Whenever a run does not end in `Replaced` (no match, declined, a
      failed read, a refused backup save, a bad pattern, a refused live
      save), the live file keeps its content. Saves are all-or-nothing
      here: a save is either refused outright or completes. */
  lemma LiveUntouchedUnlessReplaced(fs: FileSystem, path: Path, oldText: string, newText: string,
                                    backupDir: string, answer: Answer, patternCompiles: bool)
    requires Replace(fs, path, oldText, newText, backupDir, answer, patternCompiles).status != Replaced
    requires BackupPath(backupDir, path) != path
    ensures var o := Replace(fs, path, oldText, newText, backupDir, answer, patternCompiles);
            && (path in o.fs.files <==> path in fs.files)
            && (path in fs.files ==> o.fs.files[path] == fs.files[path])
  {
    var o := Replace(fs, path, oldText, newText, backupDir, answer, patternCompiles);
    if |o.writes| == 0 {
      assert o.fs == fs;
    } else {
      assert o.writes == [o.writes[0]];
      ApplyOne(fs, o.writes[0].0, o.writes[0].1);
    }
  }

  /** The scenario of the replace tests: under a backup root ending in a
      separator, `#FF00FF` becomes `#00FF00` and the mirrored copy, at the
      root's base followed by the live path, keeps `#FF00FF`. */
  lemma ColourSwapScenario(path: Path, backupDir: string)
    requires |path| >= 2 && path[0] == '/' && !Contains(path, "//")
    requires |backupDir| >= 2 && backupDir[|backupDir| - 1] == '/' && !Contains(backupDir, "//")
    ensures var fs := FileSystem(map[path := "#FF00FF"], {});
            var o := Replace(fs, path, "#FF00FF", "#00FF00", backupDir, Line(""), true);
            && o.status == Replaced
            && o.fs.files == map[path := "#00FF00", MirrorBase(backupDir) + path := "#FF00FF"]
  {
    var fs := FileSystem(map[path := "#FF00FF"], {});
    ColourFacts();
    var backup := BackupPath(backupDir, path);
    assert backup == MirrorBase(backupDir) + path;
    assert backup != path by {
      assert |MirrorBase(backupDir)| >= 1;
    }
    assert Replace(fs, path, "#FF00FF", "#00FF00", backupDir, Line(""), true).status == Replaced;
    ReplacedState(fs, path, "#FF00FF", "#00FF00", backupDir, Line(""), true);
  }

  lemma ColourFacts()
    ensures Trim("#FF00FF") == "#FF00FF"
    ensures ContainsIgnoringCase("#FF00FF", "#FF00FF")
    ensures !ContainsIgnoringCase("#FF00FF", "#00FF00")
    ensures ReplaceAll("#FF00FF", "#FF00FF", "#00FF00") == "#00FF00"
  {
    var content := "#FF00FF";
    assert Trim(content) == content by {
      assert NoEdgeWhitespace(content);
      assert [] + content + [] == content;
      TrimOfPadded([], content, []);
    }
    assert Upper(content) == "#FF00FF";
    assert Upper("#00FF00") == "#00FF00";
    ContainsAtStart(Upper(content), []);
    assert Upper(content) + [] == Upper(content);
    WholeTextMatch(content, "#FF00FF", "#00FF00");
  }
}
