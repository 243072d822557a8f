# photo-organizer, modelled in Dafny

photo-organizer keeps a collection of photos under a root directory. It
tracks the collection in an index file. The index lists every photo with its
root-relative path, its original file name and a content hash. The index
also holds a user configuration that maps type tags to file extensions.

This project models the logic of the program and proves properties of it:

- **Scan.** The scan finds the photos in the directory walk:
  `Collection.ScanPhotoCollection`.
- **Update.** Update reconciles the index with the photos on disk. Photos
  that vanished become a pool of removed entries. Each new path is hashed.
  It takes over the first pool entry with the same hash (a rename) or gets a
  fresh entry (an addition). What remains in the pool is deleted. See
  `Commands.Update`, proved against the specification function
  `Reconciliation.Reconcile`.
- **Checks.** Three checks run over the index: duplicate hashes, hashes that
  no longer match the files, and names the canonical-name computation cannot
  determine. See the `Checks` module and `Commands.Check`.
- **Rename.** Rename moves each photo to its canonical name within its own
  directory. The file system is a set of paths. See `Commands.Rename`.
- **Thumbnail catalogue.** The catalogue has a heading line per photo. The
  program reads it back to decide whether the catalogue is still up to date.
  See the `Thumbcat` module.
- **Dispatch.** `Program` models the command dispatch of `main` and
  `handle_command`: which command runs on which index, and when the index
  file is written.

Paths are sequences of components, as `PathBuf` compares them.

Several things are left abstract, each as a function-typed parameter (an
oracle):
- the content hash;
- the canonical file name;
- the operating system's answer to a move;
- locating, reading and writing the index file, and the directory walk.

Each oracle may fail. The source's `HashSet` has an unspecified iteration
order. It is modelled by a nondeterministic choice in the method and by a
ghost `order` out-parameter. Every property is proved for every order.

Where the code and its comments disagree, the model follows the code.

- `check_photo_naming` is documented as reporting names that deviate from
  the scheme. The code warns about such a name but raises its flag only when
  the canonical name cannot be computed (`Checks.MisnamedIsNotFlagged`).
- In `handle_command`, the Check command binds a new `index_changed`. That
  shadows the outer flag, so Check never writes the index file.
- `update` in src/commands.rs and `update_index` in src/main.rs have the same
  text. Both are modelled by `Commands.Update`.
- src/commands.rs is not declared as a module in src/main.rs.
  - main.rs's Rename calls a `rename_photos` that is `todo!()`, so in
    `Program` the List and Rename commands panic.
  - The rename in src/commands.rs is modelled on its own, as
    `Commands.Rename`.

Source files:
- src/index.rs holds only stubs. The index shape used is the one
  src/commands.rs uses: the photos plus the user configuration.

## Model

| member | source | states |
|---|---|---|
| Paths.StripPrefix | src/collection.rs:106 | stripping a base succeeds exactly when the base is a component prefix, and then base followed by the rest is the path |
| Paths.ExtensionSplitsAtLastDot | src/collection.rs:103 | a file name has extension `x` iff it is a non-empty stem, a dot and a dot-free `x` (so no extension without a dot or with only a leading dot) |
| Collection.ScanPhotoCollection | src/collection.rs:93-114 | the loop's result is the scan function: first walk or prefix error, else the kept files made root-relative in walk order |
| Collection.ScanKeepsConfiguredFilesInOrder | src/collection.rs:97-107 | a successful scan yields, in walk order, exactly the regular files with a configured extension, each being the root joined with its result |
| Collection.IncludedIffConfigured | src/collection.rs:94-104 | a walked entry is kept iff it is a regular file whose extension is listed, case-sensitively, under some type tag |
| Collection.ScanFailsIff | src/collection.rs:98-106 | the scan fails iff the walk has an error or a kept file lies outside the root; no partial result |
| Collection.ScanSkipsFilesWithoutExtension | src/collection.rs:101-103 | no file without an extension is ever a photo |
| Reconciliation.Retain | src/commands.rs:349 | `retain_mut`: an entry survives iff its path did not vanish |
| Reconciliation.Removed | src/commands.rs:343-348 | the pool holds exactly the entries whose path vanished |
| Reconciliation.RetainRemovedPartition | src/commands.rs:343-349 | kept entries and pool together are exactly the index's entries, as a multiset |
| Reconciliation.FirstWithHash | src/commands.rs:361 | `position`: the first pool index with the hash, or none when no entry has it |
| Reconciliation.SwapRemove | src/commands.rs:364 | `swap_remove`: one fewer element, the last moved into the gap, all others in place |
| Reconciliation.SwapRemovePermutes | src/commands.rs:364 | the result and the removed element together are the original elements, as a multiset |
| Reconciliation.RunShape | src/commands.rs:355-388 | the i-th pushed entry is for the i-th visited path, whose hash succeeded; the pass stops exactly at the first failing hash |
| Reconciliation.RunStopsAtFirstFailure | src/commands.rs:355-359 | the pass visits every path iff it does not fail; when it fails, it stopped at a path whose hash gave exactly that error |
| Reconciliation.RunPushesVisitedPaths | src/commands.rs:355-387 | the i-th pushed entry is for the i-th visited path, and that path hashed successfully |
| Reconciliation.PlaceShape | src/commands.rs:355-387 | one visit: after a failure nothing changes; a hashing error is recorded and pushes nothing; otherwise exactly one entry is pushed |
| Reconciliation.PlacedIsReuseOrNew | src/commands.rs:361-384 | the entry for a new path is the first pool entry with its hash, with only the path replaced, or a new entry with the file name and hash when no pool entry has the hash |
| Reconciliation.RunConservesPool | src/commands.rs:361-375 | entries reused for renames plus entries left in the pool are exactly the starting pool |
| Reconciliation.ReconcileFailsIff | src/commands.rs:355-359 | update fails iff hashing some new path fails, whatever the order |
| Reconciliation.ReconcilePathsAreLive | src/commands.rs:336-396 | after a successful update the indexed path set equals the live path set |
| Reconciliation.ReconcileKeepsLiveEntries | src/commands.rs:338-349 | entries whose path is still live keep their values and order, ahead of the pushed ones; even a failed update has dropped the vanished entries |
| Reconciliation.ReconcileAppendedEntry | src/commands.rs:361-387 | the i-th pushed entry follows the kept ones, its path hashed successfully, and it is the entry chosen for that path from the pool left after the first i visits |
| Reconciliation.ReconcileReusesEachEntryAtMostOnce | src/commands.rs:361-375 | reused entries and finally deleted entries together make up the removed entries, each used once |
| Reconciliation.ReconcileChangedIffPathsDiffer | src/commands.rs:353-395 | a successful update returns true iff the indexed path set differed from the live set |
| Reconciliation.ReconcileIdempotent | src/commands.rs:336-396 | a second update with the same photos leaves the index unchanged and returns false, for any order |
| Reconciliation.RenameIsDetected | src/commands.rs:361-375 | a photo moved with unchanged content keeps its entry under the new path, and the change is reported |
| Reconciliation.AdditionAndDeletionAreIndependent | src/commands.rs:376-395 | a vanished photo and an unrelated new one give a deletion and an addition with the file name as original name |
| Commands.Update | src/commands.rs:336-396 | in place on the index: the new photos and the result are those of `Reconcile` for the order in which the new paths were visited, and that order enumerates the new paths; the configuration is untouched (`update_index` in src/main.rs has the same text) |
| Commands.PushNewPhotos | src/commands.rs:352-388 | the loop pushes exactly the entries of the reconciliation pass, stops at the first hashing error, and reports a new path iff it visited one |
| Commands.VisitStep | src/commands.rs:361-387 | one iteration of the loop extends the reconciliation pass by exactly the entry it pushes, and leaves the pool it leaves |
| Commands.Check | src/commands.rs:20-24 | all three checks report in full, and the flag is the disjunction of the three checks' characterisations |
| Commands.FileSystem.RenameFile | src/commands.rs:193 | a move fails on a missing source or an operating-system error and changes nothing; otherwise the source is gone and the target exists |
| Commands.Rename | src/commands.rs:142-204 | the paths on disk and the result are those of the rename pass: the first error, or the exact number of moves made |
| Commands.RenameStopsAtFailure | src/commands.rs:160-193 | after a missing file name or a failed move, the remaining photos change nothing |
| Commands.RenameNeverOverwrites | src/commands.rs:185-194 | the final paths are the initial ones with the moves carried out, and every move went from an existing path to a path that did not exist |
| Commands.RenameStepReplays | src/commands.rs:160-195 | each photo's step keeps the invariant that the paths are the initial ones with the moves replayed, none overwriting |
| Commands.MoveReplays | src/commands.rs:185-194 | a move from an existing path to a free one removes the source and adds the target |
| Commands.RenameMovesFollowScheme | src/commands.rs:158-195 | every move takes a listed photo whose canonical name computes and differs from its name, and moves it to that name within its own directory |
| Commands.RenameMovesExtend | src/commands.rs:158-196 | the moves made on a prefix of the photos stay at the front of the pass's moves |
| Commands.EligiblePhotoIsMoved | src/commands.rs:140-195 | a photo reached without an earlier failure, not in a dry run, whose canonical name computes and differs, whose target is free and whose move succeeds, is moved to the canonical name in its own directory |
| Commands.DryRunMovesNothing | src/commands.rs:166-174 | a dry run moves nothing and, unless it fails, returns 0 |
| Checks.CheckForDuplicates | src/checks.rs:9-31 | the flag is set iff two distinct entries share a hash; the reported groups are exactly the groups with more than one entry |
| Checks.GroupingIsByHash | src/checks.rs:10-17 | the map built entry by entry sends every hash of the index to exactly the entries holding it, in index order |
| Checks.DuplicatesIffLargeGroup | src/checks.rs:19-30 | two entries share a hash iff some group has more than one member |
| Checks.GroupSizesSumToEntries | src/checks.rs:11-17 | every entry lands in exactly one group: group sizes add up to the number of entries |
| Checks.CheckHashes | src/checks.rs:35-55 | every entry is rehashed with no early exit; the flag is set iff some entry fails to hash or hashes to a different value |
| Checks.HashProblemsComplete | src/checks.rs:38-52 | a problem is reported iff some entry has it |
| Checks.HashProblemIff | src/checks.rs:40-51 | an entry has a problem iff rehashing fails or differs from the recorded hash |
| Checks.CheckPhotoNaming | src/checks.rs:59-78 | every entry is examined; the flag is set iff the canonical name of some entry cannot be computed |
| Checks.NamingIssuesComplete | src/checks.rs:62-75 | an issue is reported iff some entry has it, comparing with the file-name part of the path only |
| Checks.MisnamedIsNotFlagged | src/checks.rs:57-78 | in an index whose canonical names all compute, every photo whose name deviates is reported as misnamed, only such reports are made, and the flag characterisation is false |
| Thumbcat.LinesOfUnlines | src/commands.rs:35 | reading back lines written with `writeln!` returns them, when none holds a line feed or ends in a carriage return |
| Thumbcat.HeadingTextIff | src/commands.rs:29-40 | a line matches `^<h1>(.+)</h1>$` with capture `x` iff it is `<h1>x</h1>` for a non-empty `x` without a line feed |
| Thumbcat.ExtractEntriesFromThumbcat | src/commands.rs:28-44 | an open error is passed on; otherwise the captures of all heading lines, in order |
| Thumbcat.WriteCatalogue | src/commands.rs:295-327 | the written text is the header, a heading line and an image line per photo, and the footer |
| Thumbcat.BodyHeadings | src/commands.rs:309-323 | the headings of the photo lines are the photo names, in order, and every line is plain |
| Thumbcat.CatalogueRoundTrip | src/commands.rs:296-327 | extracting the headings of a written catalogue gives exactly the photo names, in order |
| Thumbcat.CurrentNames | src/commands.rs:253-261 | one name per current photo, in order: its path relative to the directory |
| Thumbcat.ThumbcatDirectory | src/commands.rs:238-279 | an unforced run on an existing catalogue skips iff it lists exactly the current photos; read errors are passed on; a directory without photos is skipped; otherwise the catalogue is written |
| Thumbcat.WrittenCatalogueIsUpToDate | src/commands.rs:252-262 | a catalogue just written is up to date for the same photos |
| Program.HandleCommand | src/main.rs:55-101 | read errors and scan errors are returned. Check reconciles only a copy, leaves the index as read, runs all three checks and never writes. Update writes the reconciled index iff update returned true. List and Rename panic |
| Program.RunProgram | src/main.rs:103-139 | Init writes an empty index in the working directory only outside a collection, otherwise it complains; a failing second working-directory query or write fails it. Other commands outside a collection only complain. Inside a collection a read or scan error fails the run; Check, List and Rename never write; Update writes the reconciled index to the root iff the reconciliation returned true and the write succeeds |

## Left out

- `calc_photo_hash` (the SHA-256 digest and the file I/O): a possibly failing hash oracle stands in for it.
- `get_canonical_photo_filename`: it is a stub, so it is a possibly failing oracle. `read_exif_data` and the EXIF library are not modelled.
- src/index.rs:
  - locating the collection, reading and writing the index file: results given as parameters;
  - the CSV format: not modelled;
  - the default configuration: a parameter.
- `list` and `map`: EXIF formatting, GPX writing and the external viewer are I/O.
- `get_photos_in_subdir` is not part of this model. Its result is an input.
- Thumbcat.CurrentNames, Thumbcat.ThumbcatDirectory: they require every photo to lie under the directory, which rules out the panic of `strip_prefix(subdir).unwrap()`; this relies on `get_photos_in_subdir` returning only photos under that directory.
- Other parts of `thumbcat`, none modelled:
  - the recursion over subdirectories with `read_dir`;
  - thumbnail generation with rayon;
  - base64 and `encode_safe` escaping;
  - file creation and write errors.

  Thumbnail payloads and the title are opaque strings. The round trip assumes they fit on one line.
- Logging: `info!`, `warn!`, `debug!` and `error!` are left out. Where a check's warnings are its result, they are returned as lists.
- CLI parsing, the logger setup and the Git-versioning hint are not modelled.
- Thumbcat.ExtractEntriesFromThumbcat: errors for lines that are not valid UTF-8 are not modelled. The text is given as characters.
- Commands.Rename:
  - the canonical name is taken as a single path component;
  - the message of an operating-system error is an oracle;
  - the race between the existence test and the move is not modelled.
- Commands.Update: `to_string_lossy` on file names is the identity, since names are already strings. The "Deleted" log lines are the final pool of the pass.
- Program.HandleCommand: the error-context texts of `anyhow` are not modelled; errors carry the collaborator's message.
