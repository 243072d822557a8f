/**
 * The photo scan: which entries of the directory walk below the collection
 * root count as photos. The walk itself is given as the sequence of items
 * the walker yields, each a (path, is-regular-file) pair or a traversal error.
 */
module Collection {
  import opened Wrappers
  import opened Paths
  import opened IndexStore

  /** A photo found on disk, by its path relative to the collection root. */
  datatype Photo = Photo(relativePath: Path)

  /** One entry of the directory walk. */
  datatype WalkEntry = WalkEntry(path: Path, isFile: bool)

  /** The extensions listed under any type tag of the configuration. */
  function FilterFileExtensions(config: UserConfig): set<string>
  {
    set t, x | t in config.fileTypes && x in config.fileTypes[t] :: x
  }

  /** A walked entry is kept when it is a regular file whose extension is one of `extensions`. */
  predicate IsIncluded(entry: WalkEntry, extensions: set<string>)
  {
    entry.isFile && Extension(entry.path).Some? && Extension(entry.path).value in extensions
  }

  /** The scan's result: the first error of the walk or of a prefix strip, or else the kept entries made root-relative. */
  function Scan(walk: seq<Result<WalkEntry>>, extensions: set<string>, root: Path): Result<seq<Photo>>
  {
    if walk == [] then Ok([])
    else match walk[0]
      case Err(e) => Err(e)
      case Ok(entry) =>
        if !IsIncluded(entry, extensions) then Scan(walk[1..], extensions, root)
        else match StripPrefix(entry.path, root)
          case Err(e) => Err(e)
          case Ok(rel) => Prepend([Photo(rel)], Scan(walk[1..], extensions, root))
  }

  function Prepend(photos: seq<Photo>, r: Result<seq<Photo>>): Result<seq<Photo>>
  {
    match r
    case Ok(rest) => Ok(photos + rest)
    case Err(e) => Err(e)
  }

  /** `scan_photo_collection`: one pass over the walk, pushing each kept photo. */
  method ScanPhotoCollection(config: UserConfig, rootDir: Path, walk: seq<Result<WalkEntry>>)
    returns (r: Result<seq<Photo>>)
    ensures r == Scan(walk, FilterFileExtensions(config), rootDir)
  {
    var filterFileExtensions := FilterFileExtensions(config);
    var res: seq<Photo> := [];
    assert walk[0..] == walk;
    PrependNothing(Scan(walk, filterFileExtensions, rootDir));
    for i := 0 to |walk|
      invariant Scan(walk, filterFileExtensions, rootDir) == Prepend(res, Scan(walk[i..], filterFileExtensions, rootDir))
    {
      assert walk[i..][1..] == walk[i + 1..];
      match walk[i]
      case Err(e) =>
        return Err(e);
      case Ok(entry) =>
        if entry.isFile {
          match Extension(entry.path)
          case Some(extension) =>
            if extension in filterFileExtensions {
              match StripPrefix(entry.path, rootDir)
              case Err(e) =>
                return Err(e);
              case Ok(rel) =>
                PrependTwice(res, [Photo(rel)], Scan(walk[i + 1..], filterFileExtensions, rootDir));
                res := res + [Photo(rel)];
            }
          case None =>
        }
    }
    assert walk[|walk|..] == [];
    assert res + [] == res;
    return Ok(res);
  }

  lemma PrependNothing(r: Result<seq<Photo>>)
    ensures Prepend([], r) == r
  {
    if r.Ok? {
      assert [] + r.value == r.value;
    }
  }

  lemma PrependTwice(a: seq<Photo>, b: seq<Photo>, r: Result<seq<Photo>>)
    ensures Prepend(a, Prepend(b, r)) == Prepend(a + b, r)
  {
    if r.Ok? {
      assert a + (b + r.value) == (a + b) + r.value;
    }
  }

  /** Whether the configuration lists `x` as an extension of some type tag. */
  ghost predicate Configured(config: UserConfig, x: string)
  {
    exists t :: t in config.fileTypes && x in config.fileTypes[t]
  }

  /** The walked entries that should become photos, in walk order: regular files with a configured extension. */
  ghost function PhotoEntries(walk: seq<Result<WalkEntry>>, config: UserConfig): seq<WalkEntry>
  {
    if walk == [] then []
    else
      var keep := walk[0].Ok? && walk[0].value.isFile
        && match Extension(walk[0].value.path)
           case Some(x) => Configured(config, x)
           case None => false;
      (if keep then [walk[0].value] else []) + PhotoEntries(walk[1..], config)
  }

  /**
   * A successful scan yields, in walk order, exactly the regular files whose
   * extension is configured under some type tag, each with the root prefix
   * stripped.
   */
  lemma {:induction false} ScanKeepsConfiguredFilesInOrder(walk: seq<Result<WalkEntry>>, config: UserConfig, root: Path)
    requires Scan(walk, FilterFileExtensions(config), root).Ok?
    ensures var photos := Scan(walk, FilterFileExtensions(config), root).value;
      var entries := PhotoEntries(walk, config);
      |photos| == |entries| &&
      forall k :: 0 <= k < |photos| ==> entries[k].isFile && root + photos[k].relativePath == entries[k].path
  {
    if walk != [] {
      var exts := FilterFileExtensions(config);
      var entry := walk[0].value;
      var rest := Scan(walk[1..], exts, root);
      var restEntries := PhotoEntries(walk[1..], config);
      IncludedIffConfigured(entry, config);
      if IsIncluded(entry, exts) {
        var rel := StripPrefix(entry.path, root).value;
        assert Scan(walk, exts, root) == Prepend([Photo(rel)], rest);
        ScanKeepsConfiguredFilesInOrder(walk[1..], config, root);
        assert PhotoEntries(walk, config) == [entry] + restEntries;
      } else {
        assert Scan(walk, exts, root) == rest;
        ScanKeepsConfiguredFilesInOrder(walk[1..], config, root);
        assert PhotoEntries(walk, config) == restEntries;
      }
    }
  }

  lemma IncludedIffConfigured(entry: WalkEntry, config: UserConfig)
    ensures IsIncluded(entry, FilterFileExtensions(config)) <==>
      entry.isFile && match Extension(entry.path)
        case Some(x) => Configured(config, x)
        case None => false
  {
    match Extension(entry.path)
    case Some(x) =>
      if Configured(config, x) {
        var t :| t in config.fileTypes && x in config.fileTypes[t];
        assert x in FilterFileExtensions(config);
      }
    case None =>
  }

  /** The scan fails exactly when the walk hits an error, or a kept file lies outside the root. */
  lemma {:induction false} ScanFailsIff(walk: seq<Result<WalkEntry>>, extensions: set<string>, root: Path)
    ensures Scan(walk, extensions, root).Err? <==>
      exists i :: 0 <= i < |walk| && (walk[i].Err? || (IsIncluded(walk[i].value, extensions) && !(root <= walk[i].value.path)))
  {
    if walk != [] {
      ScanFailsIff(walk[1..], extensions, root);
      assert forall i :: 1 <= i < |walk| ==> walk[i] == walk[1..][i - 1];
      if Scan(walk[1..], extensions, root).Err? {
        var i :| 0 <= i < |walk[1..]| && (walk[1..][i].Err? || (IsIncluded(walk[1..][i].value, extensions) && !(root <= walk[1..][i].value.path)));
        assert walk[i + 1] == walk[1..][i];
      }
    }
  }

  /** No file without an extension is ever a photo. */
  lemma {:induction false} ScanSkipsFilesWithoutExtension(walk: seq<Result<WalkEntry>>, config: UserConfig)
    ensures forall e :: e in PhotoEntries(walk, config) ==> Extension(e.path).Some?
  {
    if walk != [] {
      ScanSkipsFilesWithoutExtension(walk[1..], config);
    }
  }
}
