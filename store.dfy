/** The backing file data/diary.json, seen only through what loading and
    saving make of it. The JSON encoding itself is not modelled: a file
    either cannot be opened, does not decode to a list of entries, or holds
    one. */
module Store {
  import opened Entries

  /** What the backing file currently is, as far as loading can tell. */
  datatype FileState =
    | Unopenable                    // os.Open fails: missing file, no permission, ...
    | Malformed                     // opens, but does not decode as a list of entries
    | Holds(entries: seq<Entry>)    // decodes to this list

  datatype StoreError = IOError | DecodeError

  datatype Loaded = Loaded(entries: seq<Entry>) | LoadError(error: StoreError)

  /** What the environment does to a save: the file is written, or creating
      it fails (nothing is touched), or writing fails after the file was
      already truncated, leaving it in some state `left`. */
  datatype SaveOutcome = Written | CreateFailed | WriteFailed(left: FileState)

  /** Reading the whole file at once: an open failure is an IOError, a
      decode failure a DecodeError, and otherwise the stored list. */
  function Load(f: FileState): (r: Loaded)
    ensures r.Loaded? <==> f.Holds?
    ensures r.Loaded? ==> r.entries == f.entries
    ensures f.Unopenable? ==> r == LoadError(IOError)
    ensures f.Malformed? ==> r == LoadError(DecodeError)
  {
    match f
    case Unopenable => LoadError(IOError)
    case Malformed => LoadError(DecodeError)
    case Holds(s) => Loaded(s)
  }

  /** The file after saving `entries` over `f`: a full overwrite when the
      write succeeds, the old file when it could not be created, and the
      truncated remains chosen by the environment when writing fails. */
  function AfterSave(f: FileState, entries: seq<Entry>, outcome: SaveOutcome): (r: FileState)
    ensures outcome.Written? ==> r.Holds? && r.entries == entries
    ensures outcome.CreateFailed? ==> r == f
    ensures outcome.WriteFailed? ==> r == outcome.left
  {
    match outcome
    case Written => Holds(entries)
    case CreateFailed => f
    case WriteFailed(left) => left
  }

  /** Under this model of the file, a successful save replaces whatever was
      stored and the next load returns exactly the list that was saved. */
  lemma SaveThenLoad(f: FileState, entries: seq<Entry>)
    ensures Load(AfterSave(f, entries, Written)) == Loaded(entries)
  {
  }
}
