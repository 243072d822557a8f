/**
 * The command-line program: which command runs, on which index, and when
 * the index file is written. Locating the collection, reading and writing
 * the index file and walking the collection are collaborators given as
 * parameters; their results are what the program reacts to.
 */
module Program {
  import opened Wrappers
  import opened Paths
  import opened IndexStore
  import opened Collection
  import opened Reconciliation
  import opened Checks
  import opened Commands

  datatype Command = Check | Init | List(recursive: bool) | Rename(recursive: bool) | Update

  /**
   * How a run ends: normally, normally after logging an error (the program
   * still exits successfully), with an error returned from `main`, or in a
   * panic of an unimplemented command.
   */
  datatype Status = Finished | Complained(message: string) | Failed(error: string) | Panicked(reason: string)

  const NotImplemented := "not yet implemented"

  /** The photos of the collection, as the scan finds them for the index's configuration. */
  function Photos(stored: IndexFile, rootDir: Path, walk: seq<Result<WalkEntry>>): Result<seq<Photo>>
  {
    Scan(walk, FilterFileExtensions(stored.userConfig), rootDir)
  }

  /** The reconciliation `update` performs on the stored index, for a given visiting order. */
  function Reconciled(stored: IndexFile, photos: seq<Photo>, order: seq<Path>, hash: HashOracle): Reconciled
  {
    Reconcile(stored.photos, LivePaths(photos), order, hash)
  }

  /**
   * `handle_command`: read the index, scan the collection, run the command,
   * and write the index back when the command changed it. Check reconciles a
   * clone of the index only to warn when it is stale (`stale`), runs the
   * three checks on the index as read (`report`), and never writes. The
   * index as it stands at the end is `final`; `order` is the order in which
   * reconciliation visited the new paths.
   */
  method HandleCommand(command: Command, stored: Result<IndexFile>, rootDir: Path, walk: seq<Result<WalkEntry>>,
                       hash: HashOracle, canonical: CanonicalOracle, writeError: Option<string>)
    returns (status: Status, written: Option<IndexFile>, stale: bool, report: Option<CheckReport>, final: Option<IndexFile>, ghost order: seq<Path>)
    ensures stored.Err? ==> status == Failed(stored.error) && written.None?
    ensures stored.Ok? && Photos(stored.value, rootDir, walk).Err? ==>
      status == Failed(Photos(stored.value, rootDir, walk).error) && written.None?
    ensures written.Some? ==> command.Update?
    ensures stored.Ok? && Photos(stored.value, rootDir, walk).Ok? ==>
      var file := stored.value;
      var photos := Photos(file, rootDir, walk).value;
      var rec := Reconciled(file, photos, order, hash);
      && (command.Check? || command.Update? ==> IsEnumeration(order, NewPaths(file.photos, LivePaths(photos))))
      && (command.Check? ==>
            && final == Some(file)
            && (rec.result.Err? ==> status == Failed(rec.result.error))
            && (rec.result.Ok? ==>
                  && status == Finished && stale == rec.result.value
                  && report == Some(CheckReport(
                       DuplicateGroups(file.photos),
                       HashProblems(file.photos, hash),
                       NamingIssues(file.photos, file.userConfig, canonical)))))
      && (command.Init? ==> status == Finished && final == Some(file))
      && (command.List? || command.Rename? ==> status == Panicked(NotImplemented))
      && (command.Update? ==>
            && final == Some(IndexFile(rec.photos, file.userConfig))
            && (rec.result.Err? ==> status == Failed(rec.result.error) && written.None?)
            && (rec.result.Ok? ==>
                  && written == (if rec.result.value && writeError.None? then final else None)
                  && status == (if rec.result.value && writeError.Some? then Failed(writeError.value) else Finished)))
  {
    stale, report, final, order := false, None, None, [];
    written := None;
    if stored.Err? {
      return Failed(stored.error), written, stale, report, final, order;
    }
    var index := new Index(stored.value);
    var indexChanged := false;
    var photos := ScanPhotoCollection(index.userConfig, rootDir, walk);
    if photos.Err? {
      return Failed(photos.error), written, stale, report, final, order;
    }

    match command {
      case Check =>
        var copy := index.Clone();
        var changed;
        changed, order := Commands.Update(copy, photos.value, hash);
        if changed.Err? {
          return Failed(changed.error), written, stale, report, Some(index.Contents()), order;
        }
        stale := changed.value;
        var checked, results := Commands.Check(index, hash, canonical);
        report := Some(results);
      case Init =>
      case List(recursive) =>
        return Panicked(NotImplemented), written, stale, report, Some(index.Contents()), order;
      case Rename(recursive) =>
        return Panicked(NotImplemented), written, stale, report, Some(index.Contents()), order;
      case Update =>
        var changed;
        changed, order := Commands.Update(index, photos.value, hash);
        if changed.Err? {
          return Failed(changed.error), written, stale, report, Some(index.Contents()), order;
        }
        indexChanged := changed.value;
    }

    final := Some(index.Contents());
    if indexChanged {
      if writeError.Some? {
        return Failed(writeError.value), written, stale, report, final, order;
      }
      written := final;
    }
    status := Finished;
  }

  /** Where `main` found the collection the working directory belongs to: its root, if any. */
  type Locator = Path -> Result<Option<Path>>

  /**
   * `main`: Init creates an empty index in the working directory unless that
   * directory already lies in a collection; every other command needs a
   * collection and is handed to `handle_command`. The working directory is
   * asked for twice: once to locate the collection (`cwd`) and again before
   * Init writes (`cwdAtInit`). Writes are reported as the directory written
   * to and the index file written there; `order` is the order in which a
   * reconciliation visited the new paths.
   */
  method RunProgram(command: Command, cwd: Result<Path>, cwdAtInit: Result<Path>, locate: Locator, defaultConfig: UserConfig,
                    readIndex: Path -> Result<IndexFile>, walkFrom: Path -> seq<Result<WalkEntry>>,
                    hash: HashOracle, canonical: CanonicalOracle, writeError: Option<string>)
    returns (status: Status, written: Option<(Path, IndexFile)>, ghost order: seq<Path>)
    ensures cwd.Err? ==> status == Failed(cwd.error) && written.None?
    ensures cwd.Ok? && locate(cwd.value).Err? ==> status == Failed(locate(cwd.value).error) && written.None?
    ensures cwd.Ok? && locate(cwd.value).Ok? && command.Init? ==>
      match locate(cwd.value).value
      case Some(_) => status.Complained? && written.None?
      case None =>
        if cwdAtInit.Err? then status == Failed(cwdAtInit.error) && written.None?
        else if writeError.Some? then status == Failed(writeError.value) && written.None?
        else status == Finished && written == Some((cwdAtInit.value, IndexFile([], defaultConfig)))
    ensures cwd.Ok? && locate(cwd.value) == Ok(None) && !command.Init? ==> status.Complained? && written.None?
    ensures written.Some? ==> command.Init? || command.Update?
    ensures cwd.Ok? && locate(cwd.value).Ok? && locate(cwd.value).value.Some? && !command.Init? ==>
      var root := locate(cwd.value).value.value;
      var stored := readIndex(root);
      && (stored.Err? ==> status == Failed(stored.error) && written.None?)
      && (stored.Ok? && Photos(stored.value, root, walkFrom(root)).Err? ==>
            status == Failed(Photos(stored.value, root, walkFrom(root)).error) && written.None?)
      && (stored.Ok? && Photos(stored.value, root, walkFrom(root)).Ok? ==>
            var file := stored.value;
            var photos := Photos(file, root, walkFrom(root)).value;
            var rec := Reconciled(file, photos, order, hash);
            && (command.Check? || command.Update? ==> IsEnumeration(order, NewPaths(file.photos, LivePaths(photos))))
            && (command.Check? ==>
                  && written.None?
                  && status == (if rec.result.Err? then Failed(rec.result.error) else Finished))
            && (command.List? || command.Rename? ==> status == Panicked(NotImplemented) && written.None?)
            && (command.Update? ==>
                  && written == (if rec.result == Ok(true) && writeError.None? then Some((root, IndexFile(rec.photos, file.userConfig))) else None)
                  && status == (if rec.result.Err? then Failed(rec.result.error)
                                else if rec.result.value && writeError.Some? then Failed(writeError.value)
                                else Finished)))
  {
    order := [];
    if cwd.Err? {
      return Failed(cwd.error), None, order;
    }
    var foundCollection := locate(cwd.value);
    if foundCollection.Err? {
      return Failed(foundCollection.error), None, order;
    }

    if command.Init? {
      match foundCollection.value {
        case Some(rootDir) =>
          return Complained("Cannot initialize a new photo collection here!"), None, order;
        case None =>
          if cwdAtInit.Err? {
            return Failed(cwdAtInit.error), None, order;
          }
          if writeError.Some? {
            return Failed(writeError.value), None, order;
          }
          return Finished, Some((cwdAtInit.value, IndexFile([], defaultConfig))), order;
      }
    } else if foundCollection.value.Some? {
      var rootDir := foundCollection.value.value;
      var file, stale, report, final;
      status, file, stale, report, final, order :=
        HandleCommand(command, readIndex(rootDir), rootDir, walkFrom(rootDir), hash, canonical, writeError);
      written := match file { case Some(f) => Some((rootDir, f)) case None => None };
    } else {
      return Complained("Working directory does not seem to be part of a photo collection!"), None, order;
    }
  }
}
