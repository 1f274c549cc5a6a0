# recholera's backup-protected colour replacement, in Dafny

recholera swaps one colour code for another in a text file and can undo the
swap. Two operations carry the logic, both in `src/replace.rs`.

- `replace(path, old, new, backup_dir)` loads the live file and trims it.
  It gives up, changing nothing, when the text does not contain `old`
  (ignoring case). It also asks the user before going on when the text already
  contains `new`. It then saves the original text to a backup path: `backup_dir`
  and the live path glued together, with one `"//"` to `"/"` pass. For a
  `/`-rooted live path this mirrors the live path under `backup_dir`. Only after that does it replace
  every case-insensitive occurrence of `old` with `new` and save the result
  over the live file.
- `restore_backup(backup_dir)` walks every file below the backup root. It
  strips the root (less one trailing `/`) from the front of each file's path,
  copies the file's trimmed text back to the live path that remains, and then
  deletes the whole backup tree.

The model works over an abstract filesystem: a map from path to text, plus
the set of paths the operating system refuses to write. Saving a path makes it
exist; directories are implicit. Several things outside the program become
parameters:

- the line the user types, as `Mutator.Answer`;
- whether the regular-expression engine accepts the pattern, as a boolean;
- the order in which the directory walker visits the backup tree, as a
  sequence that lists each file in the tree exactly once.

Modules, one per concern:

- `Text`: Rust's `trim`, with the Unicode White_Space set; ASCII case folding;
  substring containment.
- `Substitution`: the case-insensitive gate, the literal, non-overlapping,
  left-to-right replace-all, and a reference definition of it: the text with
  each leftmost-first match swapped for the replacement.
- `Paths`: the single `"//"` to `"/"` pass, the backup path, the mirror prefix,
  and the restore target.
- `FileIO`: `load_file`, `save_file`, and the error kinds.
- `Mutator`: `replace`.
- `Restorer`: `restore_backup`.
- `Protocol`: `replace` followed by `restore_backup`.

Behaviour the model makes explicit:

- A single `"//"` pass turns `"///"` into `"//"`, so a backup path can still
  contain a doubled separator.
- Under a root that does not end in `/`, a relative live path is glued straight
  on: root `b` and live path `x` give the backup path `bx`, which lies beside
  the backup tree rather than below it, so restoring never brings it back.
- Under a root ending in `/`, a relative live path `tmp/x` and its rooted
  namesake `/tmp/x` share one backup path. Restoring always writes the rooted
  one.
- When the root's base is empty (`backup_dir` is `""` or `"/"`), the backup
  path of a `/`-rooted live path without doubled separators is the live path
  itself. The second save then overwrites the backup, so backup fidelity is
  stated only for a backup path that differs from the live path. With
  `backup_dir` equal to `""`, a live path holding `//` has a backup path with
  that separator collapsed.
- Restoring reads each mirrored file from the filesystem as it stands at that
  point in the walk. When the restore succeeds and no restore target lies
  inside the backup tree, what it leaves does not depend on the walk order. A
  walk that stops at a refused save has written only the entries before it,
  so what a failed restore leaves does depend on the order.

## Model

| member | source | states |
|---|---|---|
| Text.Trim | src/replace.rs:76-80 | the loaded text has no whitespace at either edge and occurs in the stored text at an offset with only whitespace before and after it |
| Text.TrimOfPadded | src/replace.rs:79 | trimming recovers any text without edge whitespace from any whitespace padding around it |
| Text.TrimIdempotent | src/replace.rs:79 | trimming a trimmed text changes nothing |
| Text.TrimLower | src/replace.rs:23 | lower-casing and trimming commute, because lower-casing neither creates nor removes whitespace |
| Text.ContainsIffOccurs | src/replace.rs:13 | containment holds exactly when the searched-for text occurs at some position of the text |
| Mutator.Affirmative | src/replace.rs:23 | the confirmation line counts as yes exactly when, once trimmed, it is `y` or `Y` |
| Substitution.ContainsIgnoringCase | src/replace.rs:12-17 | the gate holds exactly when some position of the text starts a stretch that equals the pattern up to ASCII case |
| Substitution.ReplaceAll | src/replace.rs:35-38 | a text in which the pattern matches at no offset, ignoring case, comes out of the replace-all unchanged |
| Substitution.MatchSet | src/replace.rs:35-36 | the match positions are exactly the offsets at which the pattern matches the text up to ASCII case |
| Substitution.MatchPositions | src/replace.rs:38 | for every text and pattern there is a leftmost-first, non-overlapping selection of match positions, found by the greedy scan |
| Substitution.ReplaceAllIsSplice | src/replace.rs:35-38 | the replace-all equals the reference splice over any leftmost-first, non-overlapping selection of case-insensitive matches: every such match and nothing else is replaced, for the empty pattern as well |
| Substitution.EmptyPatternSelectsEveryOffset | src/replace.rs:38 | with the empty pattern the selection is every offset from the start to the end, so the replacement lands before each character and once at the end |
| Substitution.EveryOccurrenceReplaced | src/replace.rs:38 | `aa` with pattern `a` and replacement `b` becomes `bb`, not `ba` |
| Substitution.EmptyPatternEverywhere | src/replace.rs:38 | `ab` with the empty pattern and replacement `-` becomes `-a-b-` |
| Substitution.MatchYieldsReplacement | src/replace.rs:35-38 | a text in which the pattern occurs, ignoring case, comes out holding the replacement |
| Substitution.PatternCaseIrrelevant | src/replace.rs:35-36 | two patterns that agree ignoring case replace exactly the same occurrences |
| Substitution.UpperCommutes | src/replace.rs:35-38 | upper-casing the output equals replacing in the upper-cased text with the upper-cased replacement, so the text's case only survives in the characters that are kept |
| Substitution.WholeTextMatch | src/replace.rs:38 | a text equal to the pattern up to case becomes exactly the replacement |
| Substitution.ColourSwapIgnoresCase | src/replace.rs:138-147 | `#FF00FF` with pattern `#ff00ff` and replacement `#00ff00` becomes `#00ff00` |
| Paths.CollapseDoubleSlash | src/replace.rs:31 | the `"//"` pass never lengthens a path |
| Paths.CollapseFixedPoints | src/replace.rs:31 | the `"//"` pass leaves a text alone exactly when it holds no doubled separator, and shortens it otherwise |
| Paths.TripleSlashKeepsDouble | src/replace.rs:31 | one pass turns `"///"` into `"//"`, so the result may still hold a doubled separator |
| Paths.MirrorBase | src/replace.rs:44-49 | the base is the root with at most one trailing separator dropped, and the separator is dropped whenever the root ends in one |
| Paths.RestoreTarget | src/replace.rs:56 | the restore target is what follows the base in the mirrored path, and it starts with a separator |
| Paths.RestoreTargetInjective | src/replace.rs:56 | two mirrored files restore to the same live path exactly when they are the same file |
| Paths.BackupPath | src/replace.rs:30-31 | the backup path is never longer than root and live path together; for a non-empty root and a `/`-rooted live path, neither with a doubled separator, it is the root's base followed by the live path |
| Paths.DefaultRootJoinsAbsolutePath | src/replace.rs:30-31 | `./backup/` joined to `/tmp/x` gives `./backup/tmp/x` |
| Paths.MirrorRoundTrip | src/replace.rs:30-56 | the backup path of a `/`-rooted live path lies below the root, and stripping the restore prefix from it gives back the live path |
| Paths.RelativePathBesideMirror | src/replace.rs:30-31 | under a root not ending in a separator, a relative live path's backup path is the two glued together and lies outside the backup tree |
| Paths.PlainRootRelativeExample | src/replace.rs:30-31 | root `b` and live path `x` give the backup path `bx`, which is not below `b` |
| Paths.RelativePathRestoresRooted | src/replace.rs:30-56 | under a root ending in a separator, a relative path and its rooted namesake share one backup path, which restores to the rooted one |
| FileIO.Load | src/replace.rs:76-80 | loading succeeds exactly when the path holds a file, and returns that file's text trimmed; otherwise it fails with not-found for that path |
| FileIO.Save | src/replace.rs:68-74 | saving succeeds exactly when the path may be written; it then stores the data verbatim at that path and leaves every other path as it was |
| FileIO.SaveThenLoad | src/replace.rs:104-123 | loading a path just saved gives the saved data trimmed, and exactly the data when that has no edge whitespace |
| FileIO.LoadTrimsNewline | src/replace.rs:95-102 | a file holding `test`, with or without a trailing newline, loads as `test` |
| Mutator.BackupThenWrite | src/replace.rs:29-40 | the backup save comes first and the live save second; each happens only if everything before it succeeded; success exactly when the pattern compiles and both paths may be written; a refused backup fails naming the backup path with nothing saved, then a pattern that does not compile fails with a pattern error after the backup save, then a refused live save fails naming the live path after the backup save |
| Mutator.Replace | src/replace.rs:7-41 | a missing live file fails with not-found; the run ends with no match exactly when the file exists and its trimmed text lacks the pattern, declines exactly when it holds both texts and the answer is not yes, and fails on the terminal exactly when it holds both and the read fails, each time changing and saving nothing; the filesystem changes only through the logged saves, the first being the trimmed original to the backup path and the second the substituted text to the live path; once the gate passes, a refused backup, a pattern that does not compile and a refused live save fail in that order with their own error kinds; success exactly when the gate passes, the pattern compiles and both saves are allowed |
| Mutator.ReplacedState | src/replace.rs:29-40 | after a successful run the filesystem is the old one with the backup path set to the trimmed original and then the live path set to the substituted text, and nothing else changed |
| Mutator.BackupFidelity | src/replace.rs:29-40 | after a successful run the backup path holds the original trimmed text and the live path holds the substituted text |
| Mutator.LiveUntouchedUnlessReplaced | src/replace.rs:7-41 | when the backup path differs from the live path, every run that does not succeed leaves the live file as it was, where a failed save is one refused outright |
| Mutator.ColourSwapScenario | src/replace.rs:126-159 | starting from a single file `#FF00FF` and a root ending in a separator, the file becomes `#00FF00` and the mirrored copy keeps `#FF00FF`; nothing else exists |
| Restorer.RestoreEntries | src/replace.rs:52-61 | the walk never removes a file or changes which paths are writable, and it fails only on a refused save |
| Restorer.WalkFrame | src/replace.rs:52-61 | the walk writes only restore targets; every other file keeps its text |
| Restorer.WalkCompletes | src/replace.rs:52-61 | the walk completes exactly when every entry's restore target may be written |
| Restorer.WalkRestoresContent | src/replace.rs:52-61 | after a completed walk, each target holds its entry's original trimmed text, whatever the order |
| Restorer.RemoveMirror | src/replace.rs:63 | removing the tree keeps exactly the files outside it, with their text |
| Restorer.Restore | src/replace.rs:43-65 | with no backup tree the removal fails and nothing changes; after success nothing lies below the root; after a failure the tree is still there |
| Restorer.RestoreSucceedsIff | src/replace.rs:43-65 | restoring succeeds exactly when a backup tree exists and every file in it may be written back to its live path |
| Restorer.RestoreRestoresContent | src/replace.rs:43-65 | after success each mirrored file's trimmed text sits at its live path |
| Restorer.RestoreFrame | src/replace.rs:43-65 | files outside the tree that are no restore target keep their text, whatever the outcome |
| Restorer.RestoreScenario | src/replace.rs:161-172 | a root without a trailing separator holding one mirrored file `#ff00ff` restores it to its live path, and nothing else remains |
| Protocol.ReplaceThenRestore | src/replace.rs:7-65 | a successful replace followed by a restore on the same root succeeds, removes the backup tree and leaves every file as before the replace, except that the live file holds its trimmed original |
| Protocol.ReplaceThenRestoreIsIdentity | src/replace.rs:7-65 | for a `/`-rooted live path outside a non-empty root, with no doubled separators, no backup tree beforehand and no edge whitespace in the live file, a successful replace followed by a restore gives back the filesystem exactly |

## Left out

- `src/main.rs` is an error-handling stub whose `run` does nothing, so it has no counterpart here.
- Printing messages and reading the terminal are left out. The confirmation line, or a failed read, is a parameter.
- Regular-expression syntax is left out. The pattern is matched literally, which is what the engine does for patterns without metacharacters, such as colour codes. Whether the pattern compiles is a parameter. `$` group references in the replacement are not expanded.
- Case folding is ASCII only. Rust's Unicode `to_uppercase` and `to_lowercase`, including mappings that change a string's length, are not modelled.
- The directory walker's visiting order is a parameter, which must list each file below the root once. Entries the walker skips on error are not modelled.
- `fs::metadata` failures, non-UTF-8 paths, symbolic links and the tree's directories are not modelled. The tree is the set of files whose paths start with the base and a separator.
- Directory creation in `save_file` is implicit. A parent that cannot be created shows up as the path being unwritable.
- Empty directories cannot be represented. `remove_dir_all` fails exactly when no file lies below the root; other failures of it are not modelled.
- A file that exists but cannot be read is not distinguished from a missing one.
- Mutator.BackupFidelity: stated only when the backup path differs from the live path. With an empty base, the live save overwrites the backup.
- Restorer.RestoreRestoresContent: stated only when no restore target lies inside the backup tree. Otherwise what a later entry reads depends on the walk order.
- Restorer.WalkRestoresContent: stated only for walks without repeated entries in which no entry is another entry's target, for the same reason.
- FileIO.Save: saves are all-or-nothing. At src/replace.rs:72 `File::create` truncates the file before `write_all` runs, so a write that then fails (disk full, an I/O error) leaves the file empty or partly written. The model has no such state: a save is either refused with nothing changed or completes.
- Mutator.LiveUntouchedUnlessReplaced: because saves are all-or-nothing, a failed live save here is one refused outright; a live save that fails mid-write would leave the live file truncated. It is also stated only when the backup path differs from the live path. With an empty base the backup save writes the trimmed text over the live file, so a pattern that then fails to compile leaves the live file trimmed.
- Protocol.ReplaceThenRestore: stated for a `/`-rooted live path outside the backup root, with no doubled separators and no backup tree beforehand. Files already in the tree would be restored as well.
- Protocol.ReplaceThenRestoreIsIdentity: stated under the same conditions as ReplaceThenRestore, and only for a live file without edge whitespace, since the restore writes back the trimmed text.
- The restore walk is a list fixed from the tree as it stands when the walk starts. The real walker reads directories lazily and may also visit files that restore targets create inside the tree.
- Paths are compared as strings. Names the operating system treats as one file, such as `b//tmp/x` and `b/tmp/x` or `./x` and `x`, are different keys here. This matters because a backup path can keep a doubled separator.
