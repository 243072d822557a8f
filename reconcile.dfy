/**
 * Index reconciliation, as a specification: what `update` computes from the
 * indexed entries, the set of live paths, the order in which it visits the
 * new paths, and the hash of each file.
 *
 * The new paths come out of a hash-set difference, so the visiting order is
 * unspecified; every definition here takes it as a parameter and every
 * property below holds for each order that enumerates the new paths.
 */
module Reconciliation {
  import opened Wrappers
  import opened Paths
  import opened IndexStore
  import opened Collection

  /** Hashing the file at a root-relative path, which may fail. */
  type HashOracle = Path -> Result<Hash>

  function PathSet(entries: seq<IndexEntry>): set<Path>
  {
    set e | e in entries :: e.filepath
  }

  function LivePaths(photos: seq<Photo>): set<Path>
  {
    set p | p in photos :: p.relativePath
  }

  /** Indexed paths that are no longer on disk: deleted or renamed photos. */
  function VanishedPaths(entries: seq<IndexEntry>, live: set<Path>): set<Path>
  {
    PathSet(entries) - live
  }

  /** Paths on disk that the index does not know yet: added or renamed photos. */
  function NewPaths(entries: seq<IndexEntry>, live: set<Path>): set<Path>
  {
    live - PathSet(entries)
  }

  /** `order` lists every element of `s` exactly once. */
  ghost predicate IsEnumeration(order: seq<Path>, s: set<Path>)
  {
    && (forall i, j :: 0 <= i < j < |order| ==> order[i] != order[j])
    && (forall p :: p in order <==> p in s)
  }

  /** The entries `retain` keeps: those whose path is not in `gone`, in their order. */
  function Retain(entries: seq<IndexEntry>, gone: set<Path>): (r: seq<IndexEntry>)
    ensures forall e :: e in r <==> e in entries && e.filepath !in gone
  {
    if entries == [] then []
    else (if entries[0].filepath in gone then [] else [entries[0]]) + Retain(entries[1..], gone)
  }

  /** The entries whose path is in `gone`, in index order: the pool of possibly renamed entries. */
  function Removed(entries: seq<IndexEntry>, gone: set<Path>): (r: seq<IndexEntry>)
    ensures forall e :: e in r <==> e in entries && e.filepath in gone
  {
    if entries == [] then []
    else (if entries[0].filepath in gone then [entries[0]] else []) + Removed(entries[1..], gone)
  }

  /** `position(|p| p.filehash == h)`: the first pool index holding hash `h`. */
  function FirstWithHash(pool: seq<IndexEntry>, h: Hash): (r: Option<nat>)
    ensures r.Some? ==> r.value < |pool| && pool[r.value].filehash == h
    ensures r.Some? ==> forall j :: 0 <= j < r.value ==> pool[j].filehash != h
    ensures r.None? ==> forall j :: 0 <= j < |pool| ==> pool[j].filehash != h
  {
    if pool == [] then None
    else if pool[0].filehash == h then Some(0)
    else match FirstWithHash(pool[1..], h)
      case None => None
      case Some(k) => Some(k + 1)
  }

  /** `Vec::swap_remove`: element `i` is taken out and the last element moves into its place. */
  function SwapRemove(s: seq<IndexEntry>, i: nat): (r: seq<IndexEntry>)
    requires i < |s|
    ensures |r| == |s| - 1
    ensures i < |r| ==> r[i] == s[|s| - 1]
    ensures forall j :: 0 <= j < |r| && j != i ==> r[j] == s[j]
  {
    if i == |s| - 1 then s[..i] else s[..i] + [s[|s| - 1]] + s[i + 1..|s| - 1]
  }

  /** `swap_remove` removes exactly the one element: the rest is a permutation of what is left. */
  lemma SwapRemovePermutes(s: seq<IndexEntry>, i: nat)
    requires i < |s|
    ensures multiset(SwapRemove(s, i)) + multiset{s[i]} == multiset(s)
  {
    var front := s[..i];
    if i == |s| - 1 {
      assert s == front + [s[i]];
    } else {
      var middle := s[i + 1..|s| - 1];
      var last := s[|s| - 1];
      assert s == front + [s[i]] + middle + [last];
      assert SwapRemove(s, i) == front + [last] + middle;
    }
  }

  /**
   * The state of the pass over the new paths: the entries pushed onto the
   * index so far, the pool of entries that vanished and were not reused yet,
   * the pool entries reused (as they were before their path was replaced),
   * the paths added as new photos, and the hashing error that stopped the pass.
   */
  datatype Pass = Pass(
    pushed: seq<IndexEntry>,
    pool: seq<IndexEntry>,
    renamed: seq<IndexEntry>,
    added: seq<Path>,
    failure: Option<string>)

  /** The entry pushed for new path `p` with hash `h`: a reused pool entry, or a new one. */
  function Placed(pool: seq<IndexEntry>, p: Path, h: Hash): (e: IndexEntry)
    ensures e.filepath == p
  {
    match FirstWithHash(pool, h)
    case Some(k) => pool[k].(filepath := p)
    case None => IndexEntry(p, FileNameOrEmpty(p), h)
  }

  /** One iteration of the loop: hash the new path, then reuse the first pool entry with that hash or create a new entry. */
  function Place(st: Pass, p: Path, hash: HashOracle): Pass
  {
    if st.failure.Some? then st
    else match hash(p)
      case Err(e) => st.(failure := Some(e))
      case Ok(h) =>
        var entry := Placed(st.pool, p, h);
        match FirstWithHash(st.pool, h)
        case Some(k) =>
          st.(pushed := st.pushed + [entry], pool := SwapRemove(st.pool, k), renamed := st.renamed + [st.pool[k]])
        case None =>
          st.(pushed := st.pushed + [entry], added := st.added + [p])
  }

  /** The pass over the new paths in the given order, starting from `pool`. */
  function Run(pool: seq<IndexEntry>, order: seq<Path>, hash: HashOracle): (st: Pass)
    ensures |st.pushed| <= |order|
    decreases |order|
  {
    if order == [] then Pass([], pool, [], [], None)
    else Place(Run(pool, order[..|order| - 1], hash), order[|order| - 1], hash)
  }

  /** The index entries after `update`, its result, and the final pass state (the report it logs). */
  datatype Reconciled = Reconciled(photos: seq<IndexEntry>, result: Result<bool>, pass: Pass)

  /**
   * `update`: drop the entries whose path vanished into the pool, then place
   * every new path; the result says whether a new path was seen or an entry
   * stayed deleted.
   */
  function Reconcile(photos: seq<IndexEntry>, live: set<Path>, order: seq<Path>, hash: HashOracle): Reconciled
  {
    var gone := VanishedPaths(photos, live);
    var pass := Run(Removed(photos, gone), order, hash);
    Reconciled(
      Retain(photos, gone) + pass.pushed,
      if pass.failure.Some? then Err(pass.failure.value) else Ok(|order| > 0 || |pass.pool| > 0),
      pass)
  }

  // ---------------------------------------------------------------------
  // Retain and Removed

  lemma {:induction false} RetainRemovedPartition(entries: seq<IndexEntry>, gone: set<Path>)
    ensures multiset(Retain(entries, gone)) + multiset(Removed(entries, gone)) == multiset(entries)
  {
    if entries != [] {
      RetainRemovedPartition(entries[1..], gone);
      assert entries == [entries[0]] + entries[1..];
    }
  }

  lemma {:induction false} RetainNothing(entries: seq<IndexEntry>, gone: set<Path>)
    requires PathSet(entries) !! gone
    ensures Retain(entries, gone) == entries
    ensures Removed(entries, gone) == []
  {
    if entries != [] {
      assert entries[0] in entries;
      assert PathSet(entries[1..]) <= PathSet(entries) by {
        forall e | e in entries[1..] ensures e in entries { }
      }
      RetainNothing(entries[1..], gone);
      assert entries == [entries[0]] + entries[1..];
    }
  }

  lemma PathSetOfRetain(entries: seq<IndexEntry>, gone: set<Path>)
    ensures PathSet(Retain(entries, gone)) == PathSet(entries) - gone
  {
    var r := Retain(entries, gone);
    forall p | p in PathSet(entries) - gone ensures p in PathSet(r) {
      var e :| e in entries && e.filepath == p;
      assert e in r;
    }
  }

  lemma PathSetAppend(a: seq<IndexEntry>, b: seq<IndexEntry>)
    ensures PathSet(a + b) == PathSet(a) + PathSet(b)
  {
    forall p | p in PathSet(a + b) ensures p in PathSet(a) + PathSet(b) {
      var e :| e in a + b && e.filepath == p;
      assert e in a || e in b;
    }
    forall p | p in PathSet(a) + PathSet(b) ensures p in PathSet(a + b) {
      if p in PathSet(a) {
        var e :| e in a && e.filepath == p;
        assert e in a + b;
      } else {
        var e :| e in b && e.filepath == p;
        assert e in a + b;
      }
    }
  }

  // ---------------------------------------------------------------------
  // The pass over the new paths

  lemma RunSnoc(pool: seq<IndexEntry>, order: seq<Path>, p: Path, hash: HashOracle)
    ensures Run(pool, order + [p], hash) == Place(Run(pool, order, hash), p, hash)
  {
    assert (order + [p])[..|order|] == order;
  }

  /**
   * The i-th pushed entry is for the i-th visited path, whose hash succeeded;
   * the pass stops exactly at the first path whose hash fails.
   */
  lemma RunShape(pool: seq<IndexEntry>, order: seq<Path>, hash: HashOracle)
    ensures var st := Run(pool, order, hash);
      && |st.pushed| <= |order|
      && (forall i :: 0 <= i < |st.pushed| ==> st.pushed[i].filepath == order[i] && hash(order[i]).Ok?)
      && (st.failure.None? <==> |st.pushed| == |order|)
      && (st.failure.Some? ==> hash(order[|st.pushed|]) == Err(st.failure.value))
  {
    RunStopsAtFirstFailure(pool, order, hash);
    RunPushesVisitedPaths(pool, order, hash);
    assert |Run(pool, order, hash).pushed| <= |order|;
  }

  /** The pass visits every path unless a hash fails, and then it stops right at that path. */
  lemma {:induction false} RunStopsAtFirstFailure(pool: seq<IndexEntry>, order: seq<Path>, hash: HashOracle)
    ensures var st := Run(pool, order, hash);
      && (st.failure.None? <==> |st.pushed| == |order|)
      && (st.failure.Some? ==> |st.pushed| < |order| && hash(order[|st.pushed|]) == Err(st.failure.value))
    decreases |order|
  {
    if order != [] {
      var prefix := order[..|order| - 1];
      RunStopsAtFirstFailure(pool, prefix, hash);
      var prev := Run(pool, prefix, hash);
      PlaceShape(prev, order[|order| - 1], hash);
      if prev.failure.Some? {
        assert order[|prev.pushed|] == prefix[|prev.pushed|];
      }
    }
  }

  /** The i-th pushed entry is for the i-th visited path, and that path's hash succeeded. */
  lemma {:induction false} RunPushesVisitedPaths(pool: seq<IndexEntry>, order: seq<Path>, hash: HashOracle)
    ensures PushedFor(Run(pool, order, hash), order, hash)
    decreases |order|
  {
    if order != [] {
      var prefix := order[..|order| - 1];
      RunPushesVisitedPaths(pool, prefix, hash);
      RunStopsAtFirstFailure(pool, prefix, hash);
      PlaceKeepsPushedFor(Run(pool, prefix, hash), prefix, order[|order| - 1], hash);
      assert prefix + [order[|order| - 1]] == order;
    }
  }

  /** Each pushed entry of `st` is for the path visited at its position, whose hash succeeded. */
  predicate PushedFor(st: Pass, order: seq<Path>, hash: HashOracle)
  {
    forall i :: 0 <= i < |st.pushed| ==> i < |order| && st.pushed[i].filepath == order[i] && hash(order[i]).Ok?
  }

  lemma PlaceKeepsPushedFor(st: Pass, order: seq<Path>, p: Path, hash: HashOracle)
    requires PushedFor(st, order, hash) && |st.pushed| <= |order|
    requires st.failure.None? ==> |st.pushed| == |order|
    ensures PushedFor(Place(st, p, hash), order + [p], hash)
  {
    PlaceShape(st, p, hash);
    var next := Place(st, p, hash);
    var visited := order + [p];
    forall i | 0 <= i < |next.pushed|
      ensures i < |visited| && next.pushed[i].filepath == visited[i] && hash(visited[i]).Ok?
    {
      if i < |st.pushed| {
        assert next.pushed[i] == st.pushed[i] && visited[i] == order[i];
      } else {
        assert visited[i] == p;
      }
    }
  }

  /** One step of the pass: nothing after a failure, no entry on a failing hash, one entry for `p` otherwise. */
  lemma PlaceShape(st: Pass, p: Path, hash: HashOracle)
    ensures var next := Place(st, p, hash);
      && (st.failure.Some? ==> next == st)
      && (st.failure.None? && hash(p).Err? ==> next.pushed == st.pushed && next.failure == Some(hash(p).error))
      && (st.failure.None? && hash(p).Ok? ==>
            && next.failure.None? && next.pushed == st.pushed + [Placed(st.pool, p, hash(p).value)])
  {
  }

  /** The pass fails iff hashing some visited path fails. */
  lemma RunFailsIff(pool: seq<IndexEntry>, order: seq<Path>, hash: HashOracle)
    ensures Run(pool, order, hash).failure.Some? <==> exists i :: 0 <= i < |order| && hash(order[i]).Err?
  {
    RunShape(pool, order, hash);
  }

  /** Once the pass has failed, later paths change nothing. */
  lemma {:induction false} RunAfterFailure(pool: seq<IndexEntry>, order: seq<Path>, rest: seq<Path>, hash: HashOracle)
    requires Run(pool, order, hash).failure.Some?
    ensures Run(pool, order + rest, hash) == Run(pool, order, hash)
    decreases |rest|
  {
    if rest == [] {
      assert order + rest == order;
    } else {
      var front := rest[..|rest| - 1];
      RunAfterFailure(pool, order, front, hash);
      assert order + rest == (order + front) + [rest[|rest| - 1]];
      RunSnoc(pool, order + front, rest[|rest| - 1], hash);
    }
  }

  /** The pushed entries of a shorter prefix of the order are a prefix of the pushed entries. */
  lemma {:induction false} RunPrefix(pool: seq<IndexEntry>, order: seq<Path>, j: nat, hash: HashOracle)
    requires j <= |order|
    ensures Run(pool, order[..j], hash).pushed <= Run(pool, order, hash).pushed
    ensures Run(pool, order[..j], hash).failure.Some? ==> Run(pool, order, hash) == Run(pool, order[..j], hash)
    decreases |order|
  {
    if j < |order| {
      var prefix := order[..|order| - 1];
      assert prefix[..j] == order[..j];
      RunPrefix(pool, prefix, j, hash);
    } else {
      assert order[..j] == order;
    }
  }

  /**
   * Every pool entry is reused at most once: the entries reused for
   * renames and the entries left in the pool are, together, exactly the
   * starting pool.
   */
  lemma {:induction false} RunConservesPool(pool: seq<IndexEntry>, order: seq<Path>, hash: HashOracle)
    ensures var st := Run(pool, order, hash);
      multiset(st.pool) + multiset(st.renamed) == multiset(pool)
    decreases |order|
  {
    if order != [] {
      var prefix := order[..|order| - 1];
      RunConservesPool(pool, prefix, hash);
      var prev := Run(pool, prefix, hash);
      if prev.failure.None? && hash(order[|order| - 1]).Ok? {
        var h := hash(order[|order| - 1]).value;
        match FirstWithHash(prev.pool, h)
        case Some(k) =>
          SwapRemovePermutes(prev.pool, k);
          assert multiset(prev.renamed + [prev.pool[k]]) == multiset(prev.renamed) + multiset{prev.pool[k]};
        case None =>
      }
    }
  }

  /** The last pushed entry of a pass that did not fail comes from placing the last path. */
  lemma LastPushed(pool: seq<IndexEntry>, order: seq<Path>, hash: HashOracle)
    requires order != [] && |Run(pool, order, hash).pushed| == |order|
    ensures var before := Run(pool, order[..|order| - 1], hash);
      var p := order[|order| - 1];
      && before.failure.None? && hash(p).Ok?
      && Run(pool, order, hash).pushed == before.pushed + [Placed(before.pool, p, hash(p).value)]
  {
  }

  /**
   * What each pushed entry is: for the i-th visited path p, whose hash h
   * succeeded, the entry `Placed` gives for the pool as it stood when p was
   * visited.
   */
  lemma PushedEntry(pool: seq<IndexEntry>, order: seq<Path>, i: nat, hash: HashOracle)
    requires i < |Run(pool, order, hash).pushed|
    ensures var before := Run(pool, order[..i], hash);
      var p := order[i];
      && hash(p).Ok? && before.failure.None?
      && Run(pool, order, hash).pushed[i] == Placed(before.pool, p, hash(p).value)
  {
    var upTo := order[..i + 1];
    RunPrefix(pool, order, i + 1, hash);
    RunShape(pool, upTo, hash);
    assert |Run(pool, upTo, hash).pushed| == i + 1;
    assert upTo[..i] == order[..i];
    LastPushed(pool, upTo, hash);
  }

  lemma RunPaths(pool: seq<IndexEntry>, order: seq<Path>, hash: HashOracle)
    ensures var st := Run(pool, order, hash);
      forall p :: p in PathSet(st.pushed) <==> exists i :: 0 <= i < |st.pushed| && order[i] == p
  {
    var st := Run(pool, order, hash);
    RunShape(pool, order, hash);
    forall p | p in PathSet(st.pushed) ensures exists i :: 0 <= i < |st.pushed| && order[i] == p {
      var e :| e in st.pushed && e.filepath == p;
      var i :| 0 <= i < |st.pushed| && st.pushed[i] == e;
    }
    forall i | 0 <= i < |st.pushed| ensures order[i] in PathSet(st.pushed) {
      assert st.pushed[i] in st.pushed;
    }
  }

  // ---------------------------------------------------------------------
  // Properties of update

  /** Update fails exactly when the hash of some new path fails, whatever the visiting order. */
  lemma ReconcileFailsIff(photos: seq<IndexEntry>, live: set<Path>, order: seq<Path>, hash: HashOracle)
    requires IsEnumeration(order, NewPaths(photos, live))
    ensures Reconcile(photos, live, order, hash).result.Err? <==>
      exists p :: p in NewPaths(photos, live) && hash(p).Err?
  {
    var gone := VanishedPaths(photos, live);
    RunFailsIff(Removed(photos, gone), order, hash);
    if exists p :: p in NewPaths(photos, live) && hash(p).Err? {
      var p :| p in NewPaths(photos, live) && hash(p).Err?;
      var i :| 0 <= i < |order| && order[i] == p;
    }
  }

  /** After a successful update the indexed paths are exactly the live paths. */
  lemma ReconcilePathsAreLive(photos: seq<IndexEntry>, live: set<Path>, order: seq<Path>, hash: HashOracle)
    requires IsEnumeration(order, NewPaths(photos, live))
    requires Reconcile(photos, live, order, hash).result.Ok?
    ensures PathSet(Reconcile(photos, live, order, hash).photos) == live
  {
    var gone := VanishedPaths(photos, live);
    var st := Run(Removed(photos, gone), order, hash);
    RunShape(Removed(photos, gone), order, hash);
    RunPaths(Removed(photos, gone), order, hash);
    PathSetOfRetain(photos, gone);
    PathSetAppend(Retain(photos, gone), st.pushed);
    assert |st.pushed| == |order|;
    forall p | p in NewPaths(photos, live) ensures p in PathSet(st.pushed) {
      var i :| 0 <= i < |order| && order[i] == p;
    }
    forall p | p in PathSet(st.pushed) ensures p in live {
      var i :| 0 <= i < |st.pushed| && order[i] == p;
      assert order[i] in order;
    }
    assert PathSet(Reconcile(photos, live, order, hash).photos) == (PathSet(photos) - gone) + PathSet(st.pushed);
  }

  /**
   * Whether or not update succeeds, the entries whose path is still live
   * come first, unchanged and in their old order, and no entry with a
   * vanished path remains: every indexed path is live.
   */
  lemma ReconcileKeepsLiveEntries(photos: seq<IndexEntry>, live: set<Path>, order: seq<Path>, hash: HashOracle)
    requires IsEnumeration(order, NewPaths(photos, live))
    ensures var r := Reconcile(photos, live, order, hash);
      var kept := Retain(photos, VanishedPaths(photos, live));
      && kept <= r.photos
      && (forall e :: e in kept <==> e in photos && e.filepath in live)
      && PathSet(r.photos) <= live
  {
    var gone := VanishedPaths(photos, live);
    var st := Run(Removed(photos, gone), order, hash);
    RunPaths(Removed(photos, gone), order, hash);
    PathSetOfRetain(photos, gone);
    PathSetAppend(Retain(photos, gone), st.pushed);
    var kept := Retain(photos, gone);
    forall e | e in photos && e.filepath in live ensures e in kept {
      assert e.filepath in PathSet(photos);
    }
    RunShape(Removed(photos, gone), order, hash);
    forall p | p in PathSet(st.pushed) ensures p in live {
      var i :| 0 <= i < |st.pushed| && order[i] == p;
      assert order[i] in order;
    }
  }

  /** The result of a successful update says exactly whether the indexed paths differed from the live ones. */
  lemma ReconcileChangedIffPathsDiffer(photos: seq<IndexEntry>, live: set<Path>, order: seq<Path>, hash: HashOracle)
    requires IsEnumeration(order, NewPaths(photos, live))
    requires Reconcile(photos, live, order, hash).result.Ok?
    ensures Reconcile(photos, live, order, hash).result.value <==> PathSet(photos) != live
  {
    var gone := VanishedPaths(photos, live);
    var pool := Removed(photos, gone);
    if PathSet(photos) == live {
      assert NewPaths(photos, live) == {};
      EmptyEnumeration(order);
      RetainNothing(photos, gone);
    } else if order == [] {
      assert live <= PathSet(photos) by {
        forall p | p in live ensures p in PathSet(photos) {
          assert p !in PathSet(photos) ==> p in NewPaths(photos, live);
        }
      }
      assert !(PathSet(photos) <= live);
      var p :| p in PathSet(photos) && p !in live;
      assert p in gone;
      var e :| e in photos && e.filepath == p;
      assert e in pool;
    }
  }

  /** An enumeration lists each element of the set once, so it is as long as the set is large. */
  lemma {:induction false} EnumerationLength(order: seq<Path>, s: set<Path>)
    requires IsEnumeration(order, s)
    ensures |order| == |s|
    decreases |order|
  {
    if order == [] {
      assert forall p :: p !in s;
      assert s == {};
    } else {
      var last := order[|order| - 1];
      var init := order[..|order| - 1];
      assert last in order;
      assert forall p :: p in init ==> p in order;
      assert last !in init by {
        forall i | 0 <= i < |init| ensures init[i] != last {
          assert init[i] == order[i];
        }
      }
      assert forall p :: p in order ==> p == last || p in init by {
        assert order == init + [last];
      }
      assert IsEnumeration(init, s - {last});
      EnumerationLength(init, s - {last});
    }
  }

  lemma EmptyEnumeration(order: seq<Path>)
    requires IsEnumeration(order, {})
    ensures order == []
  {
    EnumerationLength(order, {});
  }

  /**
   * Update is idempotent: run again on its own output with the same photos,
   * in whatever order, it succeeds, reports no change and leaves the entries
   * as they are.
   */
  lemma ReconcileIdempotent(photos: seq<IndexEntry>, live: set<Path>, order: seq<Path>, hash: HashOracle, order2: seq<Path>)
    requires IsEnumeration(order, NewPaths(photos, live))
    requires Reconcile(photos, live, order, hash).result.Ok?
    requires IsEnumeration(order2, NewPaths(Reconcile(photos, live, order, hash).photos, live))
    ensures var once := Reconcile(photos, live, order, hash).photos;
      var twice := Reconcile(once, live, order2, hash);
      twice.photos == once && twice.result == Ok(false)
  {
    var once := Reconcile(photos, live, order, hash).photos;
    ReconcilePathsAreLive(photos, live, order, hash);
    assert NewPaths(once, live) == {};
    EmptyEnumeration(order2);
    assert VanishedPaths(once, live) == {};
    RetainNothing(once, {});
    assert once + [] == once;
  }

  /**
   * Renames reuse removed entries at most once each: the entries reused and
   * the entries finally reported as deleted together make up exactly the
   * entries whose path vanished.
   */
  lemma ReconcileReusesEachEntryAtMostOnce(photos: seq<IndexEntry>, live: set<Path>, order: seq<Path>, hash: HashOracle)
    ensures var r := Reconcile(photos, live, order, hash);
      multiset(r.pass.renamed) + multiset(r.pass.pool) == multiset(Removed(photos, VanishedPaths(photos, live)))
  {
    RunConservesPool(Removed(photos, VanishedPaths(photos, live)), order, hash);
  }

  /**
   * The entry placed for a new path is a copy of the first pool entry with
   * the same hash, with only its path replaced, or, when no pool entry has
   * that hash, a new entry whose original name is the file name and whose
   * hash is the computed one.
   */
  lemma PlacedIsReuseOrNew(pool: seq<IndexEntry>, p: Path, h: Hash)
    ensures (exists k :: 0 <= k < |pool| && pool[k].filehash == h) ==>
      exists k :: 0 <= k < |pool| && pool[k].filehash == h && Placed(pool, p, h) == pool[k].(filepath := p)
        && forall j :: 0 <= j < k ==> pool[j].filehash != h
    ensures (forall k :: 0 <= k < |pool| ==> pool[k].filehash != h) ==>
      Placed(pool, p, h) == IndexEntry(p, FileNameOrEmpty(p), h)
  {
    match FirstWithHash(pool, h)
    case Some(k) =>
    case None =>
  }

  /**
   * The i-th entry appended by update is the one placed for the i-th new
   * path visited, for the pool as it stood at that visit.
   */
  lemma ReconcileAppendedEntry(photos: seq<IndexEntry>, live: set<Path>, order: seq<Path>, hash: HashOracle, i: nat)
    requires i < |Reconcile(photos, live, order, hash).pass.pushed|
    ensures var r := Reconcile(photos, live, order, hash);
      var kept := |Retain(photos, VanishedPaths(photos, live))|;
      var pool := Run(Removed(photos, VanishedPaths(photos, live)), order[..i], hash).pool;
      && kept + i < |r.photos| && hash(order[i]).Ok?
      && r.photos[kept + i] == Placed(pool, order[i], hash(order[i]).value)
  {
    var gone := VanishedPaths(photos, live);
    PushedEntry(Removed(photos, gone), order, i, hash);
    var r := Reconcile(photos, live, order, hash);
    var kept := Retain(photos, gone);
    assert r.photos[|kept| + i] == r.pass.pushed[i];
  }

  // ---------------------------------------------------------------------
  // Two small cases: a rename, and an unrelated deletion with an addition

  /** A photo renamed with identical content keeps its entry, under the new path. */
  lemma RenameIsDetected(a: Path, b: Path, name: string, h: Hash, hash: HashOracle)
    requires a != b && hash(b) == Ok(h)
    ensures var r := Reconcile([IndexEntry(a, name, h)], {b}, [b], hash);
      r.photos == [IndexEntry(b, name, h)] && r.result == Ok(true)
      && r.pass.renamed == [IndexEntry(a, name, h)] && r.pass.added == [] && r.pass.pool == []
  {
    var e := IndexEntry(a, name, h);
    var photos := [e];
    assert PathSet(photos) == {a};
    assert VanishedPaths(photos, {b}) == {a};
    assert Removed(photos, {a}) == [e];
    assert Retain(photos, {a}) == [];
    assert [b][..0] == [];
    var st0 := Run([e], [], hash);
    assert st0 == Pass([], [e], [], [], None);
    assert FirstWithHash([e], h) == Some(0);
    assert SwapRemove([e], 0) == [];
    assert Run([e], [b], hash) == Place(st0, b, hash);
  }

  /** A deleted photo and an unrelated new one are reported as a deletion and an addition. */
  lemma AdditionAndDeletionAreIndependent(a: Path, c: Path, name: string, h: Hash, h2: Hash, hash: HashOracle)
    requires a != c && h != h2 && hash(c) == Ok(h2)
    ensures var r := Reconcile([IndexEntry(a, name, h)], {c}, [c], hash);
      r.photos == [IndexEntry(c, FileNameOrEmpty(c), h2)] && r.result == Ok(true)
      && r.pass.renamed == [] && r.pass.added == [c] && r.pass.pool == [IndexEntry(a, name, h)]
  {
    var e := IndexEntry(a, name, h);
    var photos := [e];
    assert PathSet(photos) == {a};
    assert VanishedPaths(photos, {c}) == {a};
    assert Removed(photos, {a}) == [e];
    assert Retain(photos, {a}) == [];
    assert [c][..0] == [];
    var st0 := Run([e], [], hash);
    assert st0 == Pass([], [e], [], [], None);
    assert FirstWithHash([e], h2) == None;
    assert Run([e], [c], hash) == Place(st0, c, hash);
  }
}
