/**
 * The three integrity checks over the index: duplicate hashes, hashes that
 * no longer match the files, and names that the canonical-name computation
 * could not confirm. Each returns whether it found a problem; what it logs
 * is returned as the list (or map) of problems it reports.
 */
module Checks {
  import opened Wrappers
  import opened Paths
  import opened IndexStore
  import opened Reconciliation

  /** `get_canonical_photo_filename`: the name a photo should have under the configured scheme, which may fail. */
  type CanonicalOracle = (Path, UserConfig) -> Result<string>

  // ---------------------------------------------------------------------
  // Duplicates

  function Hashes(entries: seq<IndexEntry>): set<Hash>
  {
    set e | e in entries :: e.filehash
  }

  /** The entries holding hash `h`, in index order. */
  function WithHash(entries: seq<IndexEntry>, h: Hash): (r: seq<IndexEntry>)
    ensures forall e :: e in r <==> e in entries && e.filehash == h
    ensures |r| <= |entries|
  {
    if entries == [] then []
    else
      var last := entries[|entries| - 1];
      WithHash(entries[..|entries| - 1], h) + (if last.filehash == h then [last] else [])
  }

  /** Every hash of the index with the entries holding it, in index order. */
  function ByHash(entries: seq<IndexEntry>): map<Hash, seq<IndexEntry>>
  {
    map h | h in Hashes(entries) :: WithHash(entries, h)
  }

  /**
   * The map `check_for_duplicates` builds, one entry at a time: the entry is
   * appended to the list of its hash, which is started when the hash is new.
   */
  function Grouping(entries: seq<IndexEntry>): (g: map<Hash, seq<IndexEntry>>)
    ensures forall h :: h in g ==> g[h] != []
  {
    if entries == [] then map[]
    else
      var e := entries[|entries| - 1];
      var prev := Grouping(entries[..|entries| - 1]);
      prev[e.filehash := (if e.filehash in prev then prev[e.filehash] else []) + [e]]
  }

  /** The groups reported as duplicates: those with more than one entry. */
  function DuplicateGroups(entries: seq<IndexEntry>): map<Hash, seq<IndexEntry>>
  {
    var g := Grouping(entries);
    LargeGroupsAmong(g, g.Keys)
  }

  /** Two distinct positions of the index hold the same hash. */
  predicate HasDuplicates(entries: seq<IndexEntry>)
  {
    exists i, j :: 0 <= i < j < |entries| && entries[i].filehash == entries[j].filehash
  }

  /** `check_for_duplicates`: group the entries by hash, then report every group with more than one entry. */
  method CheckForDuplicates(index: Index) returns (found: bool, reported: map<Hash, seq<IndexEntry>>)
    ensures found <==> HasDuplicates(index.photos)
    ensures reported == DuplicateGroups(index.photos)
  {
    var photos := index.photos;
    var hashesToFiles: map<Hash, seq<IndexEntry>> := map[];
    for i := 0 to |photos|
      invariant hashesToFiles == Grouping(photos[..i])
    {
      var photo := photos[i];
      assert photos[..i + 1][..i] == photos[..i];
      if photo.filehash in hashesToFiles {
        hashesToFiles := hashesToFiles[photo.filehash := hashesToFiles[photo.filehash] + [photo]];
      } else {
        assert [] + [photo] == [photo];
        hashesToFiles := hashesToFiles[photo.filehash := [photo]];
      }
    }
    assert photos[..|photos|] == photos;

    found := false;
    reported := map[];
    var pending := hashesToFiles.Keys;
    ghost var done: set<Hash> := {};
    while pending != {}
      invariant pending !! done && pending + done == hashesToFiles.Keys
      invariant reported == LargeGroupsAmong(hashesToFiles, done)
      invariant found <==> exists k :: k in done && |hashesToFiles[k]| > 1
      decreases |pending|
    {
      var h :| h in pending;
      LargeGroupsAmongAdd(hashesToFiles, done, h);
      if |hashesToFiles[h]| > 1 {
        found := true;
        reported := reported[h := hashesToFiles[h]];
      }
      pending := pending - {h};
      done := done + {h};
    }
    DuplicatesIffLargeGroup(photos);
  }

  /** The groups of `g` with more than one entry, among the hashes in `done`. */
  function LargeGroupsAmong(g: map<Hash, seq<IndexEntry>>, done: set<Hash>): map<Hash, seq<IndexEntry>>
  {
    map h | h in done && h in g && |g[h]| > 1 :: g[h]
  }

  lemma LargeGroupsAmongAdd(g: map<Hash, seq<IndexEntry>>, done: set<Hash>, h: Hash)
    requires h in g
    ensures LargeGroupsAmong(g, done + {h}) ==
      if |g[h]| > 1 then LargeGroupsAmong(g, done)[h := g[h]] else LargeGroupsAmong(g, done)
  {
  }

  lemma {:induction false} WithHashAbsent(entries: seq<IndexEntry>, h: Hash)
    requires h !in Hashes(entries)
    ensures WithHash(entries, h) == []
    decreases |entries|
  {
    if entries != [] {
      var s := entries[..|entries| - 1];
      var last := entries[|entries| - 1];
      assert last in entries;
      HashesSnoc(s, last);
      assert entries == s + [last];
      WithHashAbsent(s, h);
    }
  }

  lemma HashesSnoc(s: seq<IndexEntry>, e: IndexEntry)
    ensures Hashes(s + [e]) == Hashes(s) + {e.filehash}
  {
    forall h | h in Hashes(s + [e]) ensures h in Hashes(s) + {e.filehash} {
      var x :| x in s + [e] && x.filehash == h;
      assert x in s || x == e;
    }
    forall h | h in Hashes(s) ensures h in Hashes(s + [e]) {
      var x :| x in s && x.filehash == h;
      assert x in s + [e];
    }
    assert e in s + [e];
  }

  lemma WithHashSnoc(s: seq<IndexEntry>, e: IndexEntry, h: Hash)
    ensures WithHash(s + [e], h) == WithHash(s, h) + (if e.filehash == h then [e] else [])
  {
    var t := s + [e];
    assert t[..|t| - 1] == s;
  }

  /** Adding one entry at the end appends it to its own group and leaves every other group alone. */
  lemma ByHashSnoc(s: seq<IndexEntry>, e: IndexEntry)
    ensures var g := ByHash(s);
      ByHash(s + [e]) == g[e.filehash := (if e.filehash in g then g[e.filehash] else []) + [e]]
  {
    var g := ByHash(s);
    var g2 := ByHash(s + [e]);
    var rhs := g[e.filehash := (if e.filehash in g then g[e.filehash] else []) + [e]];
    HashesSnoc(s, e);
    assert g2.Keys == rhs.Keys;
    forall h | h in g2 ensures g2[h] == rhs[h] {
      WithHashSnoc(s, e, h);
      if h == e.filehash && h !in Hashes(s) {
        WithHashAbsent(s, h);
      }
    }
  }

  lemma GroupingSnoc(s: seq<IndexEntry>, e: IndexEntry)
    ensures var g := Grouping(s);
      Grouping(s + [e]) == g[e.filehash := (if e.filehash in g then g[e.filehash] else []) + [e]]
  {
    assert (s + [e])[..|s|] == s;
  }

  /**
   * The map built entry by entry is the grouping by hash: each hash of the
   * index maps to exactly the entries holding it, in index order.
   */
  lemma {:induction false} GroupingIsByHash(entries: seq<IndexEntry>)
    ensures Grouping(entries) == ByHash(entries)
    decreases |entries|
  {
    if entries == [] {
      assert ByHash(entries).Keys == {};
    } else {
      var s := entries[..|entries| - 1];
      var e := entries[|entries| - 1];
      assert entries == s + [e];
      GroupingIsByHash(s);
      GroupingSnoc(s, e);
      ByHashSnoc(s, e);
    }
  }

  /** There are duplicates exactly when some hash has a group of more than one entry. */
  lemma {:induction false} DuplicatesIffLargeGroup(entries: seq<IndexEntry>)
    ensures HasDuplicates(entries) <==> exists h :: h in Grouping(entries) && |Grouping(entries)[h]| > 1
    decreases |entries|
  {
    if entries != [] {
      var s := entries[..|entries| - 1];
      var e := entries[|entries| - 1];
      assert entries == s + [e];
      DuplicatesIffLargeGroup(s);
      GroupingIsByHash(s);
      DuplicatesSnoc(s, e);
      LargeGroupSnoc(s, e);
    }
  }

  lemma DuplicatesSnoc(s: seq<IndexEntry>, e: IndexEntry)
    ensures HasDuplicates(s + [e]) <==> HasDuplicates(s) || e.filehash in Hashes(s)
  {
    var t := s + [e];
    if HasDuplicates(t) {
      var i, j :| 0 <= i < j < |t| && t[i].filehash == t[j].filehash;
      if j < |s| {
        assert s[i] == t[i] && s[j] == t[j];
      } else {
        assert s[i] in s;
      }
    }
    if HasDuplicates(s) {
      var i, j :| 0 <= i < j < |s| && s[i].filehash == s[j].filehash;
      assert t[i] == s[i] && t[j] == s[j];
    }
    if e.filehash in Hashes(s) {
      var x :| x in s && x.filehash == e.filehash;
      var i :| 0 <= i < |s| && s[i] == x;
      assert t[i] == x && t[|s|] == e;
    }
  }

  lemma LargeGroupSnoc(s: seq<IndexEntry>, e: IndexEntry)
    ensures (exists h :: h in Grouping(s + [e]) && |Grouping(s + [e])[h]| > 1) <==>
      (exists h :: h in Grouping(s) && |Grouping(s)[h]| > 1) || e.filehash in Grouping(s)
  {
    GroupingSnoc(s, e);
    var g := Grouping(s);
    var g' := Grouping(s + [e]);
    if exists h :: h in g && |g[h]| > 1 {
      var h :| h in g && |g[h]| > 1;
      assert h in g' && |g'[h]| >= |g[h]|;
    }
    if e.filehash in g {
      assert |g'[e.filehash]| > 1;
    }
    if exists h :: h in g' && |g'[h]| > 1 {
      var h :| h in g' && |g'[h]| > 1;
      if h != e.filehash {
        assert h in g && g[h] == g'[h];
      }
    }
  }

  /** The total size of the groups of a hash map. */
  ghost function GroupSizes(g: map<Hash, seq<IndexEntry>>): nat
    decreases |g.Keys|
  {
    if g.Keys == {} then 0
    else
      var h :| h in g;
      |g[h]| + GroupSizes(g - {h})
  }

  lemma {:induction false} GroupSizesRemove(g: map<Hash, seq<IndexEntry>>, h: Hash)
    requires h in g
    ensures GroupSizes(g) == |g[h]| + GroupSizes(g - {h})
    decreases |g.Keys|
  {
    var k :| k in g && GroupSizes(g) == |g[k]| + GroupSizes(g - {k});
    if k != h {
      GroupSizesRemove(g - {k}, h);
      GroupSizesRemove(g - {h}, k);
      assert g - {k} - {h} == g - {h} - {k};
    }
  }

  /** Every entry lands in exactly one group: the group sizes add up to the number of entries. */
  lemma {:induction false} GroupSizesSumToEntries(entries: seq<IndexEntry>)
    ensures GroupSizes(Grouping(entries)) == |entries|
    decreases |entries|
  {
    if entries == [] {
      assert Grouping(entries).Keys == {};
    } else {
      var s := entries[..|entries| - 1];
      var e := entries[|entries| - 1];
      assert entries == s + [e];
      GroupSizesSumToEntries(s);
      GroupingSnoc(s, e);
      var g := Grouping(s);
      var g' := Grouping(entries);
      GroupSizesRemove(g', e.filehash);
      assert g' - {e.filehash} == g - {e.filehash};
      if e.filehash in g {
        GroupSizesRemove(g, e.filehash);
      } else {
        assert g - {e.filehash} == g;
      }
    }
  }

  // ---------------------------------------------------------------------
  // Hashes

  /** One warning of `check_hashes`. */
  datatype HashProblem =
    | Mismatch(path: Path, recorded: Hash, actual: Hash)
    | Unreadable(path: Path, error: string)

  function HashProblemOf(e: IndexEntry, hash: HashOracle): Option<HashProblem>
  {
    match hash(e.filepath)
    case Ok(actual) => if e.filehash != actual then Some(Mismatch(e.filepath, e.filehash, actual)) else None
    case Err(msg) => Some(Unreadable(e.filepath, msg))
  }

  /** The warnings for all entries, in index order. */
  function HashProblems(entries: seq<IndexEntry>, hash: HashOracle): seq<HashProblem>
  {
    if entries == [] then []
    else
      var last := entries[|entries| - 1];
      HashProblems(entries[..|entries| - 1], hash) + (match HashProblemOf(last, hash) case Some(q) => [q] case None => [])
  }

  /** `check_hashes`: rehash every entry, with no early exit, and flag every failure or mismatch. */
  method CheckHashes(index: Index, hash: HashOracle) returns (found: bool, problems: seq<HashProblem>)
    ensures problems == HashProblems(index.photos, hash)
    ensures found <==> exists e :: e in index.photos && hash(e.filepath) != Ok(e.filehash)
  {
    var photos := index.photos;
    found := false;
    problems := [];
    for i := 0 to |photos|
      invariant problems == HashProblems(photos[..i], hash)
      invariant found <==> exists k :: 0 <= k < i && hash(photos[k].filepath) != Ok(photos[k].filehash)
    {
      var photo := photos[i];
      assert photos[..i + 1][..i] == photos[..i];
      match hash(photo.filepath)
      case Ok(actualHash) =>
        if photo.filehash != actualHash {
          found := true;
          problems := problems + [Mismatch(photo.filepath, photo.filehash, actualHash)];
        } else {
          assert problems + [] == problems;
        }
      case Err(e) =>
        found := true;
        problems := problems + [Unreadable(photo.filepath, e)];
    }
    assert photos[..|photos|] == photos;
  }

  /** Every reported problem comes from an entry, and every entry with a problem is reported. */
  lemma {:induction false} HashProblemsComplete(entries: seq<IndexEntry>, hash: HashOracle)
    ensures forall q :: q in HashProblems(entries, hash) <==>
      exists i :: 0 <= i < |entries| && HashProblemOf(entries[i], hash) == Some(q)
    decreases |entries|
  {
    if entries != [] {
      var s := entries[..|entries| - 1];
      HashProblemsComplete(s, hash);
      assert forall i :: 0 <= i < |s| ==> s[i] == entries[i];
    }
  }

  /** An entry has a hash problem exactly when its file cannot be hashed or hashes to something else. */
  lemma HashProblemIff(e: IndexEntry, hash: HashOracle)
    ensures HashProblemOf(e, hash).Some? <==> hash(e.filepath) != Ok(e.filehash)
  {
  }

  // ---------------------------------------------------------------------
  // Naming

  /** One warning of `check_photo_naming`. */
  datatype NamingIssue =
    | Misnamed(path: Path, canonical: string)
    | Undeterminable(path: Path, error: string)

  /** The name is compared with the file-name part of the path only. */
  function NamingIssueOf(e: IndexEntry, config: UserConfig, canonical: CanonicalOracle): Option<NamingIssue>
  {
    match canonical(e.filepath, config)
    case Ok(cfn) => if cfn != FileNameOrEmpty(e.filepath) then Some(Misnamed(e.filepath, cfn)) else None
    case Err(msg) => Some(Undeterminable(e.filepath, msg))
  }

  function NamingIssues(entries: seq<IndexEntry>, config: UserConfig, canonical: CanonicalOracle): seq<NamingIssue>
  {
    if entries == [] then []
    else
      var last := entries[|entries| - 1];
      NamingIssues(entries[..|entries| - 1], config, canonical)
        + (match NamingIssueOf(last, config, canonical) case Some(q) => [q] case None => [])
  }

  /**
   * `check_photo_naming`: compute the canonical name of every entry and warn
   * about each deviation; only a failed computation sets the flag.
   */
  method CheckPhotoNaming(index: Index, canonical: CanonicalOracle) returns (found: bool, issues: seq<NamingIssue>)
    ensures issues == NamingIssues(index.photos, index.userConfig, canonical)
    ensures found <==> exists e :: e in index.photos && canonical(e.filepath, index.userConfig).Err?
  {
    var photos := index.photos;
    var config := index.userConfig;
    found := false;
    issues := [];
    for i := 0 to |photos|
      invariant issues == NamingIssues(photos[..i], config, canonical)
      invariant found <==> exists k :: 0 <= k < i && canonical(photos[k].filepath, config).Err?
    {
      var photo := photos[i];
      assert photos[..i + 1][..i] == photos[..i];
      match canonical(photo.filepath, config)
      case Ok(cfn) =>
        if cfn != FileNameOrEmpty(photo.filepath) {
          issues := issues + [Misnamed(photo.filepath, cfn)];
        } else {
          assert issues + [] == issues;
        }
      case Err(e) =>
        found := true;
        issues := issues + [Undeterminable(photo.filepath, e)];
    }
    assert photos[..|photos|] == photos;
  }

  /** Every reported naming issue comes from an entry, and every entry with an issue is reported. */
  lemma {:induction false} NamingIssuesComplete(entries: seq<IndexEntry>, config: UserConfig, canonical: CanonicalOracle)
    ensures forall q :: q in NamingIssues(entries, config, canonical) <==>
      exists i :: 0 <= i < |entries| && NamingIssueOf(entries[i], config, canonical) == Some(q)
    decreases |entries|
  {
    if entries != [] {
      var s := entries[..|entries| - 1];
      NamingIssuesComplete(s, config, canonical);
      assert forall i :: 0 <= i < |s| ==> s[i] == entries[i];
    }
  }

  /**
   * Misnamed photos are reported but do not raise the flag: in an index
   * whose canonical names all compute, every deviating name is reported as
   * misnamed, every report is of that kind, and the flag characterisation
   * of `CheckPhotoNaming` is false.
   */
  lemma MisnamedIsNotFlagged(entries: seq<IndexEntry>, config: UserConfig, canonical: CanonicalOracle)
    requires forall e :: e in entries ==> canonical(e.filepath, config).Ok?
    ensures forall i :: 0 <= i < |entries| && canonical(entries[i].filepath, config).value != FileNameOrEmpty(entries[i].filepath) ==>
      Misnamed(entries[i].filepath, canonical(entries[i].filepath, config).value) in NamingIssues(entries, config, canonical)
    ensures forall q :: q in NamingIssues(entries, config, canonical) ==> q.Misnamed?
    ensures !exists e :: e in entries && canonical(e.filepath, config).Err?
  {
    NamingIssuesComplete(entries, config, canonical);
    forall q | q in NamingIssues(entries, config, canonical) ensures q.Misnamed? {
      var i :| 0 <= i < |entries| && NamingIssueOf(entries[i], config, canonical) == Some(q);
      assert entries[i] in entries;
    }
  }
}
