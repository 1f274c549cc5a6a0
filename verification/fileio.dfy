/** The file I/O layer shared by the mutator and the restorer, over an
    abstract filesystem: a map from path to stored text, plus the set of
    paths the operating system refuses to write. Directory creation is
    implicit: saving a path makes it exist. */
module FileIO {
  import opened Text
  import opened Paths

  /** The failures the protocol distinguishes. */
  datatype Error =
    | NotFound(path: Path)        // opening a file to read it failed
    | WriteFailed(path: Path)     // creating or writing a file failed
    | StdinFailed                 // reading the confirmation line failed
    | PatternError                // the search pattern did not compile
    | RemoveFailed(path: Path)    // deleting the backup tree failed

  datatype Result<T> = Ok(value: T) | Err(error: Error)

  datatype FileSystem = FileSystem(files: map<Path, string>, unwritable: set<Path>)

  /** `load_file`: the stored text with surrounding whitespace trimmed. */
  function Load(fs: FileSystem, path: Path): (r: Result<string>)
    ensures r.Ok? <==> path in fs.files
    ensures r.Err? ==> r.error == NotFound(path)
    ensures r.Ok? ==> NoEdgeWhitespace(r.value)
    ensures r.Ok? ==> exists i :: PaddedAt(fs.files[path], r.value, i)
  {
    if path in fs.files then Ok(Trim(fs.files[path])) else Err(NotFound(path))
  }

  /** `save_file`: create or truncate `path` and write `data` verbatim.
      A save either is refused, leaving everything as it was, or
      completes; a write that fails after truncating is not represented. */
  function Save(fs: FileSystem, path: Path, data: string): (r: Result<FileSystem>)
    ensures r.Ok? <==> path !in fs.unwritable
    ensures r.Err? ==> r.error == WriteFailed(path)
    ensures r.Ok? ==> r.value.unwritable == fs.unwritable
    ensures r.Ok? ==> r.value.files.Keys == fs.files.Keys + {path}
    ensures r.Ok? ==> r.value.files[path] == data
    ensures r.Ok? ==> forall q :: q in fs.files && q != path ==> r.value.files[q] == fs.files[q]
  {
    if path in fs.unwritable then Err(WriteFailed(path))
    else Ok(fs.(files := fs.files[path := data]))
  }

  /** The filesystem after a sequence of successful saves, in order. */
  function ApplyWrites(fs: FileSystem, writes: seq<(Path, string)>): (after: FileSystem)
    ensures after.unwritable == fs.unwritable
    ensures fs.files.Keys <= after.files.Keys
    decreases |writes|
  {
    if |writes| == 0 then fs
    else ApplyWrites(fs.(files := fs.files[writes[0].0 := writes[0].1]), writes[1..])
  }

  /** Saving and then loading a path gives back the trimmed data, and data
      without surrounding whitespace comes back exactly. */
  lemma SaveThenLoad(fs: FileSystem, path: Path, data: string)
    requires path !in fs.unwritable
    ensures Save(fs, path, data).Ok?
    ensures Load(Save(fs, path, data).value, path) == Ok(Trim(data))
    ensures NoEdgeWhitespace(data) ==> Load(Save(fs, path, data).value, path) == Ok(data)
  {
    if NoEdgeWhitespace(data) {
      assert [] + data + [] == data;
      TrimOfPadded([], data, []);
    }
  }

  /** The load test: a file holding `"test"`, with or without a trailing
      newline, loads as `"test"`. */
  lemma LoadTrimsNewline(fs: FileSystem, path: Path)
    requires path in fs.files
    requires fs.files[path] == "test" || fs.files[path] == "test\n"
    ensures Load(fs, path) == Ok("test")
  {
    assert NoEdgeWhitespace("test");
    assert AllWhitespace("\n");
    assert [] + "test" + [] == "test";
    assert [] + "test" + "\n" == "test\n";
    TrimOfPadded([], "test", []);
    TrimOfPadded([], "test", "\n");
  }
}
