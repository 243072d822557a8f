/**
 * The commands of the photo organizer that work on a loaded index: `update`
 * (in place on the index), `check`, and `rename` (on the file system).
 */
module Commands {
  import opened Wrappers
  import opened Paths
  import opened IndexStore
  import opened Collection
  import opened Reconciliation
  import opened Checks

  // ---------------------------------------------------------------------
  // update

  /** Some order in which the elements of `s` can be visited. */
  ghost function Enumerate(s: set<Path>): (r: seq<Path>)
    ensures IsEnumeration(r, s)
    decreases |s|
  {
    if s == {} then []
    else
      var x :| x in s;
      var rest := Enumerate(s - {x});
      assert forall i :: 0 <= i < |rest| ==> rest[i] in rest;
      [x] + rest
  }

  lemma EnumerationAppend(a: seq<Path>, sa: set<Path>, b: seq<Path>, sb: set<Path>)
    requires IsEnumeration(a, sa) && IsEnumeration(b, sb) && sa !! sb
    ensures IsEnumeration(a + b, sa + sb)
  {
    var ab := a + b;
    forall i, j | 0 <= i < j < |ab| ensures ab[i] != ab[j] {
      if j < |a| {
        assert ab[i] == a[i] && ab[j] == a[j];
      } else if i >= |a| {
        assert ab[i] == b[i - |a|] && ab[j] == b[j - |a|];
      } else {
        assert ab[i] == a[i] && a[i] in a;
        assert ab[j] == b[j - |a|] && b[j - |a|] in b;
      }
    }
  }

  /**
   * A visit whose hash succeeds pushes the placed entry: a reused pool
   * entry, which leaves the pool by `swap_remove`, or a new one.
   */
  lemma VisitStep(pool: seq<IndexEntry>, visited: seq<Path>, p: Path, hash: HashOracle,
                  remaining: seq<IndexEntry>, next: seq<IndexEntry>, entry: IndexEntry)
    requires Run(pool, visited, hash).failure.None? && Run(pool, visited, hash).pool == remaining
    requires hash(p).Ok?
    requires match FirstWithHash(remaining, hash(p).value)
      case Some(k) => next == SwapRemove(remaining, k) && entry == remaining[k].(filepath := p)
      case None => next == remaining && entry == IndexEntry(p, FileNameOrEmpty(p), hash(p).value)
    ensures var after := Run(pool, visited + [p], hash);
      && after.failure.None? && after.pool == next
      && after.pushed == Run(pool, visited, hash).pushed + [entry]
  {
    RunSnoc(pool, visited, p, hash);
  }

  /** Visiting one more pending path extends the enumeration of the visited ones. */
  lemma VisitOne(visited: seq<Path>, p: Path, pending: set<Path>, all: set<Path>)
    requires pending <= all && p in pending
    requires IsEnumeration(visited, all - pending)
    ensures IsEnumeration(visited + [p], all - (pending - {p}))
  {
    EnumerationAppend(visited, all - pending, [p], {p});
    assert all - pending + {p} == all - (pending - {p});
  }

  /**
   * When hashing `p` fails, the paths never visited can follow in any order:
   * the pass has stopped, and the whole order enumerates all new paths.
   */
  lemma CompleteOrder(pool: seq<IndexEntry>, visited: seq<Path>, p: Path, pending: set<Path>, all: set<Path>, hash: HashOracle)
    returns (order: seq<Path>)
    requires pending <= all && p in pending
    requires IsEnumeration(visited, all - pending)
    requires Run(pool, visited, hash).failure.None? && hash(p).Err?
    ensures IsEnumeration(order, all)
    ensures Run(pool, order, hash) == Run(pool, visited, hash).(failure := Some(hash(p).error))
  {
    var rest := Enumerate(pending - {p});
    VisitOne(visited, p, pending, all);
    EnumerationAppend(visited + [p], all - (pending - {p}), rest, pending - {p});
    assert all - (pending - {p}) + (pending - {p}) == all;
    RunSnoc(pool, visited, p, hash);
    RunAfterFailure(pool, visited + [p], rest, hash);
    order := visited + [p] + rest;
  }

  /**
   * `update`: the entries whose path vanished are removed from the index
   * into a pool, then every new path is hashed, in the unspecified order of
   * the hash-set difference, and appended either as the first pool entry with
   * that hash (a rename; the entry leaves the pool by `swap_remove`) or as a
   * new entry. A hashing error ends the command early, with the index already
   * changed. The order in which the new paths were visited is `order`.
   */
  method Update(index: Index, photos: seq<Photo>, hash: HashOracle) returns (r: Result<bool>, ghost order: seq<Path>)
    modifies index
    ensures index.userConfig == old(index.userConfig)
    ensures IsEnumeration(order, NewPaths(old(index.photos), LivePaths(photos)))
    ensures var rec := Reconcile(old(index.photos), LivePaths(photos), order, hash);
      index.photos == rec.photos && r == rec.result
  {
    var indexSet := PathSet(index.photos);
    var photosSet := LivePaths(photos);

    var deletedPhotosPaths := indexSet - photosSet;
    var deletedPhotos := Removed(index.photos, deletedPhotosPaths);
    index.photos := Retain(index.photos, deletedPhotosPaths);

    var addedPhotosPaths := photosSet - indexSet;
    var newPhotoFound, failure;
    newPhotoFound, failure, deletedPhotos, order := PushNewPhotos(index, deletedPhotos, addedPhotosPaths, hash);
    if failure.Some? {
      return Err(failure.value), order;
    }
    return Ok(newPhotoFound || |deletedPhotos| > 0), order;
  }

  /**
   * The loop of `update` over the new paths: hash each, push the entry it
   * gets onto the index, and stop at the first hashing error. Returns whether
   * a new path was seen, the error if any, and what is left of the pool.
   */
  method PushNewPhotos(index: Index, deletedPhotos: seq<IndexEntry>, addedPhotosPaths: set<Path>, hash: HashOracle)
    returns (newPhotoFound: bool, failure: Option<string>, remaining: seq<IndexEntry>, ghost order: seq<Path>)
    modifies index
    ensures index.userConfig == old(index.userConfig)
    ensures IsEnumeration(order, addedPhotosPaths)
    ensures var st := Run(deletedPhotos, order, hash);
      && index.photos == old(index.photos) + st.pushed
      && failure == st.failure && remaining == st.pool
    ensures newPhotoFound <==> |order| > 0
  {
    ghost var kept := index.photos;
    ghost var pool := deletedPhotos;
    remaining := deletedPhotos;
    newPhotoFound := false;
    var pending := addedPhotosPaths;
    ghost var visited: seq<Path> := [];
    assert kept + [] == kept;
    while pending != {}
      invariant index.userConfig == old(index.userConfig)
      invariant pending <= addedPhotosPaths
      invariant IsEnumeration(visited, addedPhotosPaths - pending)
      invariant Run(pool, visited, hash).failure.None? && Run(pool, visited, hash).pool == remaining
      invariant index.photos == kept + Run(pool, visited, hash).pushed
      invariant newPhotoFound <==> |visited| > 0
      decreases |pending|
    {
      var addedPhoto :| addedPhoto in pending;
      newPhotoFound := true;

      var hashResult := hash(addedPhoto);
      if hashResult.Err? {
        order := CompleteOrder(pool, visited, addedPhoto, pending, addedPhotosPaths, hash);
        return newPhotoFound, Some(hashResult.error), remaining, order;
      }
      var h := hashResult.value;

      ghost var before := remaining;
      var newIndexEntry;
      match FirstWithHash(remaining, h) {
        case Some(renamedPhotoIndex) =>
          var renamedPhoto := remaining[renamedPhotoIndex];
          remaining := SwapRemove(remaining, renamedPhotoIndex);
          newIndexEntry := renamedPhoto.(filepath := addedPhoto);
        case None =>
          newIndexEntry := IndexEntry(addedPhoto, FileNameOrEmpty(addedPhoto), h);
      }

      VisitStep(pool, visited, addedPhoto, hash, before, remaining, newIndexEntry);
      ghost var pushed := Run(pool, visited, hash).pushed;
      assert (kept + pushed) + [newIndexEntry] == kept + (pushed + [newIndexEntry]);
      index.photos := index.photos + [newIndexEntry];
      VisitOne(visited, addedPhoto, pending, addedPhotosPaths);
      visited := visited + [addedPhoto];
      pending := pending - {addedPhoto};
    }
    assert addedPhotosPaths - {} == addedPhotosPaths;
    order := visited;
    failure := None;
  }

  // ---------------------------------------------------------------------
  // check

  /** What the three checks report, each in full. */
  datatype CheckReport = CheckReport(
    duplicates: map<Hash, seq<IndexEntry>>,
    hashProblems: seq<HashProblem>,
    namingIssues: seq<NamingIssue>)

  /**
   * `check`: all three checks, combined without short-circuiting, so that
   * every check reports in full even when an earlier one already complained.
   */
  method Check(index: Index, hash: HashOracle, canonical: CanonicalOracle) returns (found: bool, report: CheckReport)
    ensures report == CheckReport(
      DuplicateGroups(index.photos),
      HashProblems(index.photos, hash),
      NamingIssues(index.photos, index.userConfig, canonical))
    ensures found <==>
      || HasDuplicates(index.photos)
      || (exists e :: e in index.photos && hash(e.filepath) != Ok(e.filehash))
      || (exists e :: e in index.photos && canonical(e.filepath, index.userConfig).Err?)
  {
    var duplicates, groups := CheckForDuplicates(index);
    var deviations, problems := CheckHashes(index, hash);
    var misnamed, issues := CheckPhotoNaming(index, canonical);
    found := duplicates || deviations || misnamed;
    report := CheckReport(groups, problems, issues);
  }

  // ---------------------------------------------------------------------
  // rename

  /**
   * The part of the file system below the collection root that `rename`
   * sees: the set of existing paths, relative to the root.
   */
  class FileSystem {
    var paths: set<Path>

    constructor (paths: set<Path>)
      ensures this.paths == paths
    {
      this.paths := paths;
    }

    /**
     * `fs::rename`: fails when the source does not exist or the operating
     * system reports an error (`osError`); otherwise the source is gone and
     * the target exists.
     */
    method RenameFile(from: Path, to: Path, osError: MoveOracle) returns (r: Option<string>)
      modifies this
      ensures r == MoveFailure(old(paths), from, to, osError)
      ensures paths == if r.Some? then old(paths) else old(paths) - {from} + {to}
    {
      r := MoveFailure(paths, from, to, osError);
      if r.None? {
        paths := paths - {from} + {to};
      }
    }
  }

  /** The error text, if any, that the operating system gives for moving one path to another. */
  type MoveOracle = (Path, Path) -> Option<string>

  function MoveFailure(paths: set<Path>, from: Path, to: Path, osError: MoveOracle): Option<string>
  {
    if from !in paths then Some("No such file or directory") else osError(from, to)
  }

  datatype Move = Move(from: Path, to: Path)

  /** The state of a rename pass: the paths on disk, the moves done so far, and the error that ended it. */
  datatype Renaming = Renaming(paths: set<Path>, moves: seq<Move>, failure: Option<string>)

  /** The path a photo is moved to: its own directory, with the canonical name. */
  function RenameTarget(p: Path, canonicalName: string): Path
    requires |p| > 0
  {
    p[..|p| - 1] + [Normal(canonicalName)]
  }

  /** One photo of `rename`, as the loop body treats it. */
  function RenameStep(st: Renaming, p: Path, config: UserConfig, canonical: CanonicalOracle, osError: MoveOracle, dryRun: bool): Renaming
  {
    if st.failure.Some? then st
    else match canonical(p, config)
      case Err(_) => st
      case Ok(cn) =>
        match FileName(p)
        case None => st.(failure := Some("Could not file component of photo path!"))
        case Some(cur) =>
          if cur == cn || dryRun then st
          else
            var target := RenameTarget(p, cn);
            if target in st.paths then st
            else match MoveFailure(st.paths, p, target, osError)
              case Some(e) => st.(failure := Some(e))
              case None => Renaming(st.paths - {p} + {target}, st.moves + [Move(p, target)], None)
  }

  /** The rename pass over `photos`, in order. */
  function RenameRun(st: Renaming, photos: seq<Photo>, config: UserConfig, canonical: CanonicalOracle, osError: MoveOracle, dryRun: bool): Renaming
  {
    if photos == [] then st
    else
      var before := RenameRun(st, photos[..|photos| - 1], config, canonical, osError, dryRun);
      RenameStep(before, photos[|photos| - 1].relativePath, config, canonical, osError, dryRun)
  }

  /** Once a photo has failed, the rest of the pass changes nothing. */
  lemma {:induction false} RenameStopsAtFailure(st: Renaming, photos: seq<Photo>, j: nat, config: UserConfig, canonical: CanonicalOracle, osError: MoveOracle, dryRun: bool)
    requires j <= |photos|
    requires RenameRun(st, photos[..j], config, canonical, osError, dryRun).failure.Some?
    ensures RenameRun(st, photos, config, canonical, osError, dryRun) == RenameRun(st, photos[..j], config, canonical, osError, dryRun)
    decreases |photos|
  {
    if j < |photos| {
      var init := photos[..|photos| - 1];
      assert init[..j] == photos[..j];
      RenameStopsAtFailure(st, init, j, config, canonical, osError, dryRun);
    } else {
      assert photos[..j] == photos;
    }
  }

  function RenameResult(run: Renaming): Result<nat>
  {
    match run.failure
    case Some(e) => Err(e)
    case None => Ok(|run.moves|)
  }

  /**
   * `rename`: for each photo of the directory, move it to its canonical name
   * in the same directory unless it already has that name, its canonical
   * name cannot be computed, the pass is a dry run, or the target exists;
   * count the moves. The first failed move or unusable path ends the pass.
   */
  method Rename(fs: FileSystem, curPhotos: seq<Photo>, config: UserConfig, canonical: CanonicalOracle, osError: MoveOracle, dryRun: bool)
    returns (r: Result<nat>)
    modifies fs
    ensures var run := RenameRun(Renaming(old(fs.paths), [], None), curPhotos, config, canonical, osError, dryRun);
      fs.paths == run.paths && r == RenameResult(run)
  {
    ghost var start := Renaming(fs.paths, [], None);
    ghost var st := start;
    var renamedPhotoCount := 0;
    for i := 0 to |curPhotos|
      invariant st == RenameRun(start, curPhotos[..i], config, canonical, osError, dryRun)
      invariant st.failure.None? && fs.paths == st.paths && renamedPhotoCount == |st.moves|
    {
      var filepath := curPhotos[i].relativePath;
      assert curPhotos[..i + 1][..i] == curPhotos[..i];
      match canonical(filepath, config) {
        case Ok(canonicalName) =>
          var curName := FileName(filepath);
          if curName.None? {
            st := RenameStep(st, filepath, config, canonical, osError, dryRun);
            RenameStopsAtFailure(start, curPhotos, i + 1, config, canonical, osError, dryRun);
            return Err("Could not file component of photo path!");
          }
          if curName.value == canonicalName {
          } else if dryRun {
          } else {
            var fullNewPath := RenameTarget(filepath, canonicalName);
            if fullNewPath in fs.paths {
              continue;
            }
            var e := fs.RenameFile(filepath, fullNewPath, osError);
            if e.Some? {
              st := RenameStep(st, filepath, config, canonical, osError, dryRun);
              RenameStopsAtFailure(start, curPhotos, i + 1, config, canonical, osError, dryRun);
              return Err(e.value);
            }
            renamedPhotoCount := renamedPhotoCount + 1;
          }
        case Err(_) =>
      }
      st := RenameStep(st, filepath, config, canonical, osError, dryRun);
    }
    assert curPhotos[..|curPhotos|] == curPhotos;
    return Ok(renamedPhotoCount);
  }

  /** The paths after carrying out `moves` one after the other. */
  function ApplyMoves(paths: set<Path>, moves: seq<Move>): set<Path>
  {
    if moves == [] then paths
    else
      var m := moves[|moves| - 1];
      ApplyMoves(paths, moves[..|moves| - 1]) - {m.from} + {m.to}
  }

  /** Each move starts from an existing path and lands on a path that does not exist yet. */
  predicate NeverOverwrites(paths: set<Path>, moves: seq<Move>)
  {
    forall i :: 0 <= i < |moves| ==>
      moves[i].from in ApplyMoves(paths, moves[..i]) && moves[i].to !in ApplyMoves(paths, moves[..i])
  }

  /**
   * The paths after `rename` are the initial paths with its moves carried
   * out, and none of those moves replaced an existing file.
   */
  lemma {:induction false} RenameNeverOverwrites(paths: set<Path>, photos: seq<Photo>, config: UserConfig, canonical: CanonicalOracle, osError: MoveOracle, dryRun: bool)
    ensures var run := RenameRun(Renaming(paths, [], None), photos, config, canonical, osError, dryRun);
      run.paths == ApplyMoves(paths, run.moves) && NeverOverwrites(paths, run.moves)
    decreases |photos|
  {
    if photos != [] {
      var init := photos[..|photos| - 1];
      RenameNeverOverwrites(paths, init, config, canonical, osError, dryRun);
      var before := RenameRun(Renaming(paths, [], None), init, config, canonical, osError, dryRun);
      RenameStepReplays(paths, before, photos[|photos| - 1].relativePath, config, canonical, osError, dryRun);
    }
  }

  /** One photo keeps the pass a replay of its moves, none of which overwrites. */
  lemma RenameStepReplays(paths: set<Path>, st: Renaming, p: Path, config: UserConfig, canonical: CanonicalOracle, osError: MoveOracle, dryRun: bool)
    requires st.paths == ApplyMoves(paths, st.moves) && NeverOverwrites(paths, st.moves)
    ensures var next := RenameStep(st, p, config, canonical, osError, dryRun);
      next.paths == ApplyMoves(paths, next.moves) && NeverOverwrites(paths, next.moves)
  {
    var next := RenameStep(st, p, config, canonical, osError, dryRun);
    if next.moves != st.moves {
      var m := next.moves[|next.moves| - 1];
      assert next.moves == st.moves + [m];
      MoveReplays(paths, st.moves, m);
    }
  }

  /** A move from an existing path to a free one extends a replay that never overwrites. */
  lemma MoveReplays(paths: set<Path>, moves: seq<Move>, m: Move)
    requires NeverOverwrites(paths, moves)
    requires m.from in ApplyMoves(paths, moves) && m.to !in ApplyMoves(paths, moves)
    ensures ApplyMoves(paths, moves + [m]) == ApplyMoves(paths, moves) - {m.from} + {m.to}
    ensures NeverOverwrites(paths, moves + [m])
  {
    var ms := moves + [m];
    assert ms[..|moves|] == moves;
    forall i | 0 <= i < |ms|
      ensures ms[i].from in ApplyMoves(paths, ms[..i]) && ms[i].to !in ApplyMoves(paths, ms[..i])
    {
      if i < |moves| {
        assert ms[..i] == moves[..i] && ms[i] == moves[i];
      }
    }
  }

  /**
   * Every move of `rename` takes one of the photos whose canonical name
   * computes and differs from its current name, and gives it that name in
   * the same directory.
   */
  lemma {:induction false} RenameMovesFollowScheme(paths: set<Path>, photos: seq<Photo>, config: UserConfig, canonical: CanonicalOracle, osError: MoveOracle, dryRun: bool)
    ensures var run := RenameRun(Renaming(paths, [], None), photos, config, canonical, osError, dryRun);
      forall m :: m in run.moves ==>
        && Photo(m.from) in photos
        && canonical(m.from, config).Ok?
        && FileName(m.to) == Some(canonical(m.from, config).value)
        && FileName(m.from) != FileName(m.to)
        && Parent(m.to) == Parent(m.from)
  {
    if photos != [] {
      var init := photos[..|photos| - 1];
      RenameMovesFollowScheme(paths, init, config, canonical, osError, dryRun);
      assert forall x :: x in init ==> x in photos;
    }
  }

  /** The moves of a pass only grow: the moves made on a prefix of the photos stay at the front. */
  lemma {:induction false} RenameMovesExtend(st: Renaming, photos: seq<Photo>, j: nat, config: UserConfig, canonical: CanonicalOracle, osError: MoveOracle, dryRun: bool)
    requires j <= |photos|
    ensures RenameRun(st, photos[..j], config, canonical, osError, dryRun).moves <= RenameRun(st, photos, config, canonical, osError, dryRun).moves
    decreases |photos|
  {
    if j < |photos| {
      var init := photos[..|photos| - 1];
      assert init[..j] == photos[..j];
      RenameMovesExtend(st, init, j, config, canonical, osError, dryRun);
    } else {
      assert photos[..j] == photos;
    }
  }

  /**
   * Conversely, `rename` renames every photo that deviates from the scheme:
   * when a pass that is not a dry run reaches a photo without having failed,
   * the photo's canonical name computes and differs from its name, the
   * target is free and the move succeeds, that move is among the pass's moves.
   */
  lemma EligiblePhotoIsMoved(paths: set<Path>, photos: seq<Photo>, j: nat, config: UserConfig, canonical: CanonicalOracle, osError: MoveOracle)
    requires j < |photos|
    requires var before := RenameRun(Renaming(paths, [], None), photos[..j], config, canonical, osError, false);
      var p := photos[j].relativePath;
      && before.failure.None?
      && canonical(p, config).Ok? && FileName(p).Some? && FileName(p).value != canonical(p, config).value
      && RenameTarget(p, canonical(p, config).value) !in before.paths
      && MoveFailure(before.paths, p, RenameTarget(p, canonical(p, config).value), osError).None?
    ensures var p := photos[j].relativePath;
      Move(p, RenameTarget(p, canonical(p, config).value)) in RenameRun(Renaming(paths, [], None), photos, config, canonical, osError, false).moves
  {
    var st := Renaming(paths, [], None);
    var p := photos[j].relativePath;
    var prefix := photos[..j + 1];
    assert prefix[..j] == photos[..j];
    var after := RenameRun(st, prefix, config, canonical, osError, false);
    assert Move(p, RenameTarget(p, canonical(p, config).value)) in after.moves;
    RenameMovesExtend(st, photos, j + 1, config, canonical, osError, false);
  }

  /** A dry run moves nothing; it can still fail on a path without a file name. */
  lemma {:induction false} DryRunMovesNothing(paths: set<Path>, photos: seq<Photo>, config: UserConfig, canonical: CanonicalOracle, osError: MoveOracle)
    ensures var run := RenameRun(Renaming(paths, [], None), photos, config, canonical, osError, true);
      run.moves == [] && run.paths == paths && (RenameResult(run).Ok? ==> RenameResult(run) == Ok(0))
  {
    if photos != [] {
      DryRunMovesNothing(paths, photos[..|photos| - 1], config, canonical, osError);
    }
  }
}
