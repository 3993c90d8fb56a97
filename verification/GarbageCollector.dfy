/** The garbage collector of the content-addressed store: safety checks, enumeration, marking, the
size guard and the destructive sweep. */
module GarbageCollector {
  import opened Wrappers
  import opened Graph
  import opened StoreLayout
  import opened StoreFiles
  import opened StoredBytes
  import opened Collection
  import opened Sweep
  import opened SweepOutcome
  import opened Marking
  import opened SizeGuard
  import opened Enumeration
  import opened EmptyDirs
  import opened MmapStore

  datatype GcError =
    | Io
    | ActiveOpLocks
    | EmptyRootSet
    | RootDigestMissing(digest: Digest)
    | CorruptedNodeDuringWalk(digest: Digest)
    | WouldFreeTooMuch(pct: nat, totalMb: nat)

  datatype GcReport = GcReport(totalNodes: nat, reachableNodes: nat, unreachableNodes: nat,
                               deletedNodes: nat, deletedBlobs: nat, bytesFreed: nat, dryRun: bool)

  datatype Unlinked = Absent | Removed(size: nat) | Failed

  /** What the counters of a sweep from `before` to `after` say. */
  ghost predicate Accounts(root: Path, before: Files, after: Files, nodes: nat, blobs: nat, bytes: nat) {
    && nodes + |Stored(root, after)| == |Stored(root, before)|
    && blobs + |StoredBlobs(root, after)| == |StoredBlobs(root, before)|
    && bytes + TotalBytes(after) == TotalBytes(before)
  }

  /** The lock files whose operation is not stale. */
  function FreshLocks(root: Path, files: Files, stale: set<string>): set<Path> {
    set p | p in files && IsLockPath(root, p) && FileName(p) !in stale
  }

  /** The lock files whose operation is stale. */
  function StaleLocks(root: Path, files: Files, stale: set<string>): set<Path> {
    set p | p in files && IsLockPath(root, p) && FileName(p) in stale
  }

  /** The conditions a collection checks once no operation is in flight: a non-empty set of stored
      roots, and no corrupted node among the live ones. */
  ghost predicate Admissible(root: Path, files: Files, roots: seq<Digest>) {
    && roots != []
    && ToSet(roots) <= Stored(root, files)
    && LiveNodes(root, files, ToSet(roots)) <= Readable(root, files)
  }

  /** The reason for which a collection that is not admissible is refused. */
  ghost predicate Refused(root: Path, files: Files, roots: seq<Digest>, e: GcError) {
    match e
    case EmptyRootSet => roots == []
    case RootDigestMissing(d) =>
      d !in Stored(root, files) &&
      exists i :: 0 <= i < |roots| && roots[i] == d && ToSet(roots[..i]) <= Stored(root, files)
    case CorruptedNodeDuringWalk(d) =>
      ToSet(roots) <= Stored(root, files) && d in LiveNodes(root, files, ToSet(roots)) - Readable(root, files)
    case _ => false
  }

  /** What the counters of a report mean; `before` is the store without the stale locks. */
  ghost predicate Truthful(root: Path, before: Files, after: Files, roots: seq<Digest>, report: GcReport) {
    var live := LiveNodes(root, before, ToSet(roots));
    && report.totalNodes == |ListedFiles(root, before)|
    && report.reachableNodes == |live|
    && report.unreachableNodes == |UnreachableFiles(root, before, live)|
    && Accounts(root, before, after, report.deletedNodes, report.deletedBlobs, report.bytesFreed)
  }

  /** What marking found: how many node files are listed and how many nodes live, and the garbage,
      once per listed file and, in a tidy store, once per digest, with its weight. */
  ghost predicate Marked(root: Path, files: Files, roots: set<Digest>, total: nat, reachable: nat, list: seq<Digest>) {
    var live := LiveNodes(root, files, roots);
    && total == |ListedFiles(root, files)|
    && reachable == |live|
    && |list| == |UnreachableFiles(root, files, live)|
    && ToSet(list) == Garbage(root, files, roots)
    && (Tidy(root, files) ==> NoDuplicates(list))
    && NodeBytes(root, files, list) == GarbageBytes(root, files, roots)
  }

  lemma LiveNodesAre(root: Path, files: Files, roots: set<Digest>)
    ensures LiveNodes(root, files, roots) == Live(Dag(root, files), roots)
  {
  }

  lemma MarkedMeans(root: Path, files: Files, roots: seq<Digest>, total: nat, reachable: nat, list: seq<Digest>)
    requires Marked(root, files, ToSet(roots), total, reachable, list)
    ensures total == |ListedFiles(root, files)| && ToSet(list) == Garbage(root, files, ToSet(roots))
    ensures Tidy(root, files) ==> NoDuplicates(list)
    ensures NodeBytes(root, files, list) == GarbageBytes(root, files, ToSet(roots))
    ensures Truthful(root, files, files, roots, GcReport(total, reachable, |list|, 0, 0, 0, true))
    ensures forall after, nodes, blobs, bytes :: Accounts(root, files, after, nodes, blobs, bytes) ==>
              Truthful(root, files, after, roots, GcReport(total, reachable, |list|, nodes, blobs, bytes, false))
  {
  }

  lemma AdmissibleIff(root: Path, files: Files, roots: seq<Digest>)
    ensures Admissible(root, files, roots) <==>
            roots != [] && ToSet(roots) <= Stored(root, files) &&
            LiveNodes(root, files, ToSet(roots)) <= Readable(root, files)
    ensures roots == [] ==> Refused(root, files, roots, EmptyRootSet)
  {
  }

  lemma CorruptedIsRefused(root: Path, files: Files, roots: seq<Digest>, d: Digest)
    requires ToSet(roots) <= Stored(root, files)
    requires d in LiveNodes(root, files, ToSet(roots)) && d !in Readable(root, files)
    ensures Refused(root, files, roots, CorruptedNodeDuringWalk(d))
  {
  }

  lemma MarkingMeans(root: Path, files: Files, roots: set<Digest>, paths: seq<Path>, all: seq<Digest>,
                     nodes: seq<Digest>, reachable: set<Digest>)
    requires NoDuplicates(paths) && Decodes([], paths, all)
    requires forall p :: p in paths <==> p in files && IsListed(root, p)
    requires NoDuplicates(nodes) && ToSet(nodes) == LiveNodes(root, files, roots)
    requires forall d :: d in reachable <==> d in nodes
    ensures Marked(root, files, roots, |all|, |reachable|, Unreachable(all, reachable))
  {
    hide LiveNodes, ListedDigests, ListedFiles, UnreachableFiles, Tidy, Unreachable, NoDuplicates, Decodes, IsListed,
         NodeBytes, Weights, TotalBytes, PathsOutside;
    NoDuplicatesCardinality(nodes);
    assert reachable == ToSet(nodes);
    ListingCounts(root, files, paths, all, reachable);
    PlanWeighs(root, files, paths, all, reachable);
    if Tidy(root, files) { TidyListsOnce(root, files, paths, all, reachable); }
  }

  class GarbageCollector {
    const store: Store
    const dryRun: bool
    const force: bool

    constructor (store: Store, dryRun: bool, force: bool)
      ensures this.store == store && this.dryRun == dryRun && this.force == force
    {
      this.store, this.dryRun, this.force := store, dryRun, force;
    }

    /** Removes the file at p if something exists there.  It fails exactly on a directory and on a file
        whose removal the file system refuses. */
    method Unlink(p: Path) returns (r: Unlinked)
      requires store.Valid() && forall d :: d in store.cache ==> NodePath(store.root, d) != p
      modifies store`files
      ensures store.Valid()
      ensures store.files == if r.Failed? then old(store.files) else old(store.files) - {p}
      ensures r.Removed? ==> p in old(store.files) && r.size == old(store.files)[p].size
      ensures r.Absent? <==> p !in old(store.files).Keys + store.dirs
      ensures r.Failed? <==> Stuck(old(store.files), store.dirs, store.denied, p)
    {
      if p in store.dirs { return Failed; }
      if p !in store.files { return Absent; }
      if p in store.denied { return Failed; }
      r := Removed(store.files[p].size);
      store.files := store.files - {p};
    }

    /** Removes the directories above path that have become empty, from the inside out, except those
        the file system refuses to remove. */
    method CleanEmptyDirs(path: Path)
      requires store.Valid() && Under(store.root, path)
      modifies store`dirs
      ensures store.Valid() && store.dirs <= old(store.dirs)
      ensures forall d :: d in old(store.dirs) - store.dirs ==> Under(d, path) && d !in store.denied
      ensures Parent(path) !in old(store.dirs) ==> store.dirs == old(store.dirs)
      ensures Parent(path) in old(store.dirs) ==>
                NoEmptyAncestor(store.root, store.files, store.dirs, store.denied, path)
    {
      hide WellFormed, Children, NoEmptyAncestor;
      store.dirs := CleanUpwards(store.root, store.files, store.dirs, store.denied, path);
    }

    method UnlinkNode(d: Digest) returns (r: Unlinked)
      requires store.Valid() && d !in store.cache
      modifies store`files
      ensures store.Valid()
      ensures store.files == if r.Failed? then old(store.files) else old(store.files) - {NodePath(store.root, d)}
      ensures r.Failed? <==> Stuck(old(store.files), store.dirs, store.denied, NodePath(store.root, d))
      ensures Accounts(store.root, old(store.files), store.files,
                       if r.Removed? then 1 else 0, 0, if r.Removed? then r.size else 0)
    {
      forall e | e in store.cache ensures NodePath(store.root, e) != NodePath(store.root, d) {
        PathsInjective(store.root, e, d);
      }
      ghost var before := store.files;
      r := Unlink(NodePath(store.root, d));
      if r.Removed? { UnlinkNodeAccounts(store.root, before, d); } else { assert store.files == before; }
    }

    method UnlinkBlob(d: Digest) returns (r: Unlinked)
      requires store.Valid()
      modifies store`files
      ensures store.Valid()
      ensures store.files == if r.Failed? then old(store.files) else old(store.files) - {BlobPath(store.root, d)}
      ensures r.Failed? <==> Stuck(old(store.files), store.dirs, store.denied, BlobPath(store.root, d))
      ensures Accounts(store.root, old(store.files), store.files,
                       0, if r.Removed? then 1 else 0, if r.Removed? then r.size else 0)
    {
      forall e | e in store.cache ensures NodePath(store.root, e) != BlobPath(store.root, d) {
        PathsInjective(store.root, e, d);
      }
      ghost var before := store.files;
      r := Unlink(BlobPath(store.root, d));
      if r.Removed? { UnlinkBlobAccounts(store.root, before, d); } else { assert store.files == before; }
    }

    /** One pass of the sweep loop: evict, unlink the node, unlink the blob, clean up directories.  It
        makes m of the two unlink attempts, and fails exactly if the next one is stuck. */
    method SweepOne(d: Digest) returns (nodes: nat, blobs: nat, bytes: nat, ghost m: nat, ok: bool)
      requires store.Valid()
      modifies store`files, store`dirs, store`cache, store`lru, store`nodeCacheBytes
      ensures store.Valid() && m == Attempts(store.root, old(store.files), old(store.dirs), store.denied, d)
      ensures ok <==> m == 2
      ensures store.files == AfterAttempts(store.root, old(store.files), d, m)
      ensures Accounts(store.root, old(store.files), store.files, nodes, blobs, bytes)
      ensures PrunedAbove(store.root, old(store.files), old(store.dirs), store.files, store.dirs, store.denied, d, ok)
    {
      hide NodePath, BlobPath, Stored, StoredBlobs, TotalBytes, NoEmptyAncestor, Queued;
      nodes, blobs, bytes, m, ok := 0, 0, 0, 0, false;
      store.EvictCacheEntry(d);
      PathsInjective(store.root, d, d);

      var node := UnlinkNode(d);
      if node.Failed? { return; }
      m := 1;
      if node.Removed? { bytes, nodes := node.size, 1; }

      var blob := UnlinkBlob(d);
      if blob.Failed? { return; }
      m := 2;
      if blob.Removed? { bytes, blobs := bytes + blob.size, 1; }

      Siblings(store.root, d);
      NoShardNoFiles(store.root, old(store.files), old(store.dirs), d);
      CleanEmptyDirs(NodePath(store.root, d));
      ok := true;
    }

    /** Unlinks the node and blob file of every digest of the list, in order, until one is stuck.  The
        counters are the differences in stored nodes, stored blobs and bytes, and no directory above a
        deleted node is left empty. */
    method SweepAll(list: seq<Digest>) returns (r: Result<(nat, nat, nat), GcError>, ghost n: nat)
      requires store.Valid()
      modifies store`files, store`dirs, store`cache, store`lru, store`nodeCacheBytes
      ensures store.Valid()
      ensures SweptTo(store.root, old(store.files), list, n, store.files)
      ensures FreeUpTo(store.root, list, n, old(store.files), old(store.dirs), store.denied)
      ensures r.Err? ==> r.error == Io && StuckAt(store.root, list, n, old(store.files), old(store.dirs), store.denied)
      ensures r.Ok? ==> n == 2 * |list|
      ensures r.Ok? ==> Accounts(store.root, old(store.files), store.files, r.value.0, r.value.1, r.value.2)
      ensures r.Ok? ==> Pruned(store.root, old(store.files), list, store.files, store.dirs, store.denied)
    {
      hide *;
      ghost var before, dirs := store.files, store.dirs;
      NothingSwept(store.root, before, list);
      NothingDone(store.root, before, dirs, store.denied, list);
      AccountsNone(store.root, before);
      var deletedNodes: nat, deletedBlobs: nat, bytesFreed: nat := 0, 0, 0;
      for i := 0 to |list|
        invariant store.Valid()
        invariant SweptTo(store.root, before, list, 2 * i, store.files)
        invariant FreeUpTo(store.root, list, 2 * i, before, dirs, store.denied)
        invariant ShortDirsGone(store.root, dirs, store.dirs)
        invariant Pruned(store.root, before, list[..i], store.files, store.dirs, store.denied)
        invariant Accounts(store.root, before, store.files, deletedNodes, deletedBlobs, bytesFreed)
      {
        ghost var current, now := store.files, store.dirs;
        var nodes, blobs, bytes, ok;
        ghost var m;
        nodes, blobs, bytes, m, ok := SweepOne(list[i]);
        AttemptsMean(store.root, current, now, store.denied, list[i]);
        SweepPair(store.root, before, list, i, m, current);
        SweepPairFree(store.root, before, dirs, store.denied, list, i, current, now);
        AccountsAdd(store.root, before, current, store.files, deletedNodes, deletedBlobs, bytesFreed,
                    nodes, blobs, bytes);
        n := 2 * i + m;
        if !ok { return Err(Io), n; }
        SweepPairPrunes(store.root, before, dirs, store.denied, list, i, current, now, store.files, store.dirs);
        deletedNodes, deletedBlobs, bytesFreed := deletedNodes + nodes, deletedBlobs + blobs, bytesFreed + bytes;
      }
      assert list[..|list|] == list;
      n := 2 * |list|;
      r := Ok((deletedNodes, deletedBlobs, bytesFreed));
    }

    /** Removes the stale lock files, except those the file system refuses to remove. */
    method CleanStaleLocks(stale: set<string>) returns (ghost locks: set<Path>)
      requires store.Valid()
      modifies store`files
      ensures store.Valid() && store.files == old(store.files) - locks
      ensures locks == StaleLocks(store.root, old(store.files), stale) - store.denied
    {
      hide NodePath, BlobPath, TotalBytes, FileName;
      var todo := StaleLocks(store.root, store.files, stale);
      locks := {};
      ghost var all, denied := todo, store.denied;
      while todo != {}
        invariant store.Valid() && store.files == old(store.files) - locks
        invariant todo <= all && locks == all - todo - denied
        decreases |todo|
      {
        var p :| p in todo;
        todo := todo - {p};
        forall d | d in store.cache ensures NodePath(store.root, d) != p {
          LockIsNoNodeFile(store.root, p, d);
        }
        LockIsThere(store.root, old(store.files), store.files, store.dirs, stale, p, locks);
        var r := Unlink(p);
        if !r.Failed? {
          MinusTwice(old(store.files), locks, p);
          locks := locks + {p};
        }
      }
    }

    /** The first root that is not stored. */
    method FirstMissing(roots: seq<Digest>) returns (r: Option<Digest>)
      requires store.Valid()
      ensures r.None? <==> ToSet(roots) <= Stored(store.root, store.files)
      ensures r.Some? ==> Refused(store.root, store.files, roots, RootDigestMissing(r.value))
    {
      hide NodePath, BlobPath;
      var i := 0;
      while i < |roots|
        invariant 0 <= i <= |roots| && ToSet(roots[..i]) <= Stored(store.root, store.files)
      {
        StoredMeansNodeFile(store.root, store.files, roots[i]);
        if !store.Exists(roots[i]) {
          assert roots[i] in ToSet(roots);
          return Some(roots[i]);
        }
        assert ToSet(roots[..i + 1]) == ToSet(roots[..i]) + {roots[i]};
        i := i + 1;
      }
      assert roots[..i] == roots;
      r := None;
    }

    /** Enumerates, marks, and returns the number of listed and of live nodes and the unreachable list. */
    method Mark(roots: seq<Digest>) returns (r: Result<(nat, nat, seq<Digest>), GcError>)
      requires store.Valid()
      modifies store`cache, store`lru, store`nodeCacheBytes
      ensures store.Valid()
      ensures r.Ok? <==> LiveNodes(store.root, store.files, ToSet(roots)) <= Readable(store.root, store.files)
      ensures r.Err? ==>
                && r.error.CorruptedNodeDuringWalk?
                && r.error.digest in LiveNodes(store.root, store.files, ToSet(roots))
                && r.error.digest !in Readable(store.root, store.files)
      ensures r.Ok? ==> Marked(store.root, store.files, ToSet(roots), r.value.0, r.value.1, r.value.2)
      ensures r.Ok? ==>
                Filled(store.root, store.files, store.maxNodeCacheBytes, old(store.cache).Keys,
                       LiveNodes(store.root, store.files, ToSet(roots)), store.cache.Keys, store.nodeCacheBytes)
    {
      hide *;
      store.ValidMeans();
      LiveNodesAre(store.root, store.files, ToSet(roots));
      var all; ghost var paths;
      all, paths := WalkStoreDir(store.root, store.files, store.dirs, store.root, []);
      var walk := store.WalkReachable(roots);
      match walk
      case Err(d) => r := Err(CorruptedNodeDuringWalk(d));
      case Ok(found) =>
        var reachable := set d | d in found.0;
        MarkingMeans(store.root, store.files, ToSet(roots), paths, all, found.0, reachable);
        r := Ok((|all|, |reachable|, Unreachable(all, reachable)));
    }

    /** A collection once the operation locks have been dealt with.  `plan` is the unreachable list
        and n the number of unlink attempts made on it; `weighed` is what the size guard took for the
        bytes of the store: the bytes cached when it looked. */
    method CollectUnlocked(roots: seq<Digest>)
      returns (r: Result<GcReport, GcError>, ghost plan: seq<Digest>, ghost n: nat, ghost weighed: nat)
      requires store.Valid()
      modifies store`files, store`dirs, store`cache, store`lru, store`nodeCacheBytes
      ensures store.Valid()
      ensures SweptTo(store.root, old(store.files), plan, n, store.files)
      ensures Admissible(store.root, old(store.files), roots) ==>
                ToSet(plan) == Garbage(store.root, old(store.files), ToSet(roots))
      ensures Admissible(store.root, old(store.files), roots) <==> r.Ok? || r.error.Io? || r.error.WouldFreeTooMuch?
      ensures !Admissible(store.root, old(store.files), roots) ==> Refused(store.root, old(store.files), roots, r.error)
      ensures dryRun || (r.Err? && !r.error.Io?) ==> n == 0 && store.dirs == old(store.dirs)
      ensures r.Ok? && !dryRun ==> n == 2 * |plan|
      ensures FreeUpTo(store.root, plan, n, old(store.files), old(store.dirs), store.denied)
      ensures r == Err(Io) ==> StuckAt(store.root, plan, n, old(store.files), old(store.dirs), store.denied)
      ensures r.Ok? && !dryRun ==>
                Pruned(store.root, old(store.files), plan, store.files, store.dirs, store.denied)
      ensures r.Err? && r.error.WouldFreeTooMuch? ==>
                && weighed > 0
                && r.error.pct == NodeBytes(store.root, old(store.files), plan) * 100 / weighed
                && r.error.totalMb == weighed / 1048576
      ensures r.Ok? ==> r.value.dryRun == dryRun && Truthful(store.root, old(store.files), store.files, roots, r.value)
      ensures (dryRun ==> r != Err(Io)) && r != Err(ActiveOpLocks)
      ensures Admissible(store.root, old(store.files), roots) ==>
                (r.Err? && r.error.WouldFreeTooMuch? <==>
                 !force && GuardTrips(NodeBytes(store.root, old(store.files), plan), weighed))
      ensures dryRun || (r.Err? && !r.error.Io?) ==> weighed == store.CachedBytes()
      ensures Admissible(store.root, old(store.files), roots) && Tidy(store.root, old(store.files)) ==>
                NoDuplicates(plan)
      ensures Admissible(store.root, old(store.files), roots) ==>
                NodeBytes(store.root, old(store.files), plan) ==
                  GarbageBytes(store.root, old(store.files), ToSet(roots))
      ensures Admissible(store.root, old(store.files), roots) ==>
                Weighs(store.root, old(store.files), store.maxNodeCacheBytes, old(store.cache).Keys, ToSet(roots),
                       weighed - store.blobCacheBytes)
    {
      hide *;
      AdmissibleIff(store.root, store.files, roots);
      plan, n, weighed := [], 0, store.CachedBytes();
      NothingSwept(store.root, store.files, plan);
      NothingDone(store.root, store.files, store.dirs, store.denied, plan);
      if roots == [] { return Err(EmptyRootSet), plan, n, weighed; }
      var missing := FirstMissing(roots);
      if missing.Some? { return Err(RootDigestMissing(missing.value)), plan, n, weighed; }

      var marked := Mark(roots);
      weighed := store.CachedBytes();
      if marked.Ok? {
        store.ValidMeans();
        CacheWeighs(store.root, store.files, store.maxNodeCacheBytes, store.cache, old(store.cache).Keys, ToSet(roots),
                    store.nodeCacheBytes);
      }
      if marked.Err? {
        CorruptedIsRefused(store.root, store.files, roots, marked.error.digest);
        return Err(marked.error), plan, n, weighed;
      }
      var (total, reachable, unreachable) := marked.value;
      plan := unreachable;
      NothingSwept(store.root, store.files, plan);
      NothingDone(store.root, store.files, store.dirs, store.denied, plan);
      RootsAreListed(store.root, store.files, roots);
      MarkedMeans(store.root, store.files, roots, total, reachable, unreachable);

      if !force && total > 0 {
        var unreachableBytes := NodeBytes(store.root, store.files, unreachable);
        var totalBytes := store.CachedBytes();
        if GuardTrips(unreachableBytes, totalBytes) {
          return Err(WouldFreeTooMuch(unreachableBytes * 100 / totalBytes, totalBytes / 1024 / 1024)), plan, n, weighed;
        }
      }

      if dryRun { return Ok(GcReport(total, reachable, |unreachable|, 0, 0, 0, true)), plan, n, weighed; }
      var swept;
      swept, n := SweepAll(unreachable);
      match swept
      case Err(e) => r := Err(e);
      case Ok((nodes, blobs, bytes)) =>
        r := Ok(GcReport(total, reachable, |unreachable|, nodes, blobs, bytes, false));
    }

    /** Runs one collection; `stale` holds the names of the lock files that are over an hour old.
        Whatever the outcome, only stale locks and files of garbage digests are gone; a successful
        real run has removed all of the latter, and a dry run nothing at all. */
    method Collect(roots: seq<Digest>, stale: set<string>)
      returns (r: Result<GcReport, GcError>, ghost locks: set<Path>)
      requires store.Valid()
      modifies store`files, store`dirs, store`cache, store`lru, store`nodeCacheBytes
      ensures store.Valid()
      ensures Interrupted(store.root, old(store.files), store.files, ToSet(roots))
      ensures r.Ok? && !dryRun ==>
                && Completed(store.root, old(store.files), store.files, ToSet(roots))
                && Stored(store.root, store.files) == LiveNodes(store.root, old(store.files), ToSet(roots))
      ensures locks == if dryRun || r == Err(ActiveOpLocks) then {}
                       else StaleLocks(store.root, old(store.files), stale) - store.denied
      ensures dryRun || (r.Err? && !r.error.Io?) ==>
                store.files == old(store.files) - locks && store.dirs == old(store.dirs)
      ensures dryRun ==> r != Err(Io)
      ensures !dryRun && (r.Ok? || r == Err(Io)) ==>
                (r == Err(Io) <==>
                 Obstructed(store.root, old(store.files), old(store.dirs), store.denied, ToSet(roots)))
      ensures r.Ok? && !dryRun ==>
                forall d ::
                  d in Garbage(store.root, old(store.files), ToSet(roots)) * Stored(store.root, old(store.files)) ==>
                    NoEmptyAncestor(store.root, store.files, store.dirs, store.denied, NodePath(store.root, d))
      ensures r == Err(ActiveOpLocks) <==> !force && FreshLocks(store.root, old(store.files), stale) != {}
      ensures r != Err(ActiveOpLocks) ==>
                (r.Ok? || r.error.Io? || r.error.WouldFreeTooMuch? <==> Admissible(store.root, old(store.files), roots))
      ensures r != Err(ActiveOpLocks) && !Admissible(store.root, old(store.files), roots) ==>
                Refused(store.root, old(store.files), roots, r.error)
      ensures r.Ok? ==>
                && r.value.dryRun == dryRun
                && Truthful(store.root, old(store.files) - locks, store.files, roots, r.value)
      ensures force ==> !(r.Err? && r.error.WouldFreeTooMuch?)
      ensures r.Err? && r.error.WouldFreeTooMuch? ==> r.error.pct >= 90 && r.error.totalMb >= 100
      ensures r != Err(ActiveOpLocks) && Admissible(store.root, old(store.files), roots) && !force ==>
                GuardVerdict(store.root, old(store.files), store.maxNodeCacheBytes, old(store.cache).Keys,
                             store.blobCacheBytes, ToSet(roots), r.Err? && r.error.WouldFreeTooMuch?)
    {
      hide *;
      locks := {};
      LocksGone(store.root, store.files, locks, ToSet(roots));
      if FreshLocks(store.root, store.files, stale) != {} && !force { return Err(ActiveOpLocks), locks; }
      if !dryRun { locks := CleanStaleLocks(stale); }
      StaleAreLocks(store.root, old(store.files), stale, locks);
      LocksGone(store.root, old(store.files), locks, ToSet(roots));
      ghost var plan, n, weighed;
      r, plan, n, weighed := CollectUnlocked(roots);
      if Admissible(store.root, old(store.files), roots) {
        SweepIsCollection(store.root, old(store.files), locks, ToSet(roots), plan, n, store.files);
        ObstructedIff(store.root, old(store.files), locks, old(store.dirs), store.denied, ToSet(roots), plan, n);
        if r.Ok? && !dryRun {
          PrunedGarbage(store.root, old(store.files), locks, ToSet(roots), plan, store.files, store.dirs, store.denied);
        }
      }
      if Admissible(store.root, old(store.files), roots) {
        GuardAfterLocks(store.root, old(store.files), locks, store.maxNodeCacheBytes, old(store.cache).Keys,
                        store.blobCacheBytes, roots, weighed);
        if r.Err? && r.error.WouldFreeTooMuch? {
          GuardReports(NodeBytes(store.root, old(store.files) - locks, plan), weighed);
        }
      }
      if n == 0 { SweptNone(store.root, old(store.files) - locks, plan, store.files); }
      if r.Ok? && !dryRun { CompletedIsExact(store.root, old(store.files), store.files, ToSet(roots)); }
    }
  }

  /** Some node or blob file of the garbage cannot be unlinked. */
  ghost predicate Obstructed(root: Path, files: Files, dirs: set<Path>, denied: set<Path>, roots: set<Digest>) {
    exists p :: IsFileOf(root, p, Garbage(root, files, roots)) && Stuck(files, dirs, denied, p)
  }

  lemma ObstructedIff(root: Path, files: Files, locks: set<Path>, dirs: set<Path>, denied: set<Path>,
                      roots: set<Digest>, plan: seq<Digest>, n: nat)
    requires forall p :: p in locks ==> IsLockPath(root, p)
    requires ToSet(plan) == Garbage(root, files, roots)
    requires FreeUpTo(root, plan, n, files - locks, dirs, denied)
    ensures n == 2 * |plan| ==> !Obstructed(root, files, dirs, denied, roots)
    ensures StuckAt(root, plan, n, files - locks, dirs, denied) ==> Obstructed(root, files, dirs, denied, roots)
  {
    hide NodePath, BlobPath, Doomed, IsLockPath, Garbage, IsFileOf;
    DoomedAreFilesOf(root, plan);
    forall p | p in Doomed(root, plan) ensures p !in locks {
      FilesAreNoLocks(root, p, ToSet(plan));
    }
    if n == 2 * |plan| {
      assert forall p :: p in Doomed(root, plan) ==> !Stuck(files - locks, dirs, denied, p);
    }
    if StuckAt(root, plan, n, files - locks, dirs, denied) {
      assert Doomed(root, plan)[n] in Doomed(root, plan);
    }
  }

  lemma FilesAreNoLocks(root: Path, p: Path, digests: set<Digest>)
    requires IsFileOf(root, p, digests)
    ensures !IsLockPath(root, p)
  {
    NotLocks(root, DigestFromPath(p).value);
  }

  lemma PrunedGarbage(root: Path, files: Files, locks: set<Path>, roots: set<Digest>, plan: seq<Digest>,
                      after: Files, dirs: set<Path>, denied: set<Path>)
    requires forall p :: p in locks ==> IsLockPath(root, p)
    requires ToSet(plan) == Garbage(root, files, roots) && Pruned(root, files - locks, plan, after, dirs, denied)
    ensures forall d :: d in Garbage(root, files, roots) * Stored(root, files) ==>
              NoEmptyAncestor(root, after, dirs, denied, NodePath(root, d))
  {
    hide NodePath, NoEmptyAncestor, Garbage, IsLockPath;
    forall d | d in ToSet(plan) * Stored(root, files)
      ensures NoEmptyAncestor(root, after, dirs, denied, NodePath(root, d))
    {
      StoredMeansNodeFile(root, files, d);
      NotLocks(root, d);
    }
  }

  /** The verdict once the stale locks are gone. */
  lemma GuardAfterLocks(root: Path, files: Files, locks: set<Path>, limit: Option<nat>, cached: set<Digest>, blobs: nat,
                        roots: seq<Digest>, weighed: nat)
    requires (forall p :: p in locks ==> IsLockPath(root, p)) && Admissible(root, files, roots)
    requires Weighs(root, files - locks, limit, cached, ToSet(roots), weighed - blobs)
    ensures GuardVerdict(root, files, limit, cached, blobs, ToSet(roots),
                         GuardTrips(GarbageBytes(root, files - locks, ToSet(roots)), weighed))
  {
    hide NodePath, IsListed, GarbageBytes, BytesOf, GuardTrips, GuardVerdict, Weighs, LiveNodes, Readable, NoneLarger;
    RootsLive(root, files, roots);
    LocksWeighNothing(root, files, locks, ToSet(roots));
    GuardIff(root, files - locks, limit, cached, blobs, ToSet(roots), weighed);
    VerdictWithoutLocks(root, files, locks, limit, cached, blobs, ToSet(roots),
                        GuardTrips(GarbageBytes(root, files - locks, ToSet(roots)), weighed));
  }

  lemma RootsLive(root: Path, files: Files, roots: seq<Digest>)
    requires roots != [] && ToSet(roots) <= Stored(root, files)
    ensures LiveNodes(root, files, ToSet(roots)) != {}
  {
    hide NodePath;
    assert roots[0] in ToSet(roots);
    ReachesSelf(Dag(root, files), roots[0]);
    assert roots[0] in LiveNodes(root, files, ToSet(roots));
  }

  /** A dry run reports what a real run from the same store would: the same counts, and in a tidy
      store as many unreachable nodes as the real run deletes. */
  lemma DryRunPredicts(root: Path, before: Files, locks: set<Path>, after: Files, roots: seq<Digest>,
                       dry: GcReport, full: GcReport)
    requires forall p :: p in locks ==> IsLockPath(root, p)
    requires Truthful(root, before, before, roots, dry)
    requires Truthful(root, before - locks, after, roots, full) && Completed(root, before, after, ToSet(roots))
    ensures dry.totalNodes == full.totalNodes && dry.reachableNodes == full.reachableNodes
    ensures dry.unreachableNodes == full.unreachableNodes
    ensures dry.deletedNodes == dry.deletedBlobs == dry.bytesFreed == 0
    ensures Tidy(root, before) ==>
              && dry.totalNodes == dry.reachableNodes + dry.unreachableNodes
              && full.deletedNodes == dry.unreachableNodes
  {
    var live := LiveNodes(root, before, ToSet(roots));
    LocksAreNoNodes(root, before, locks);
    LocksAreNotListed(root, before, locks, live);
    CompletedIsExact(root, before, after, ToSet(roots));
    if Tidy(root, before) {
      LiveClosed(Dag(root, before), ToSet(roots));
      CountsAddUpIffNoStrayCopy(root, before, live);
      TidyCount(root, before);
    }
  }

  lemma TidyCount(root: Path, files: Files)
    requires Tidy(root, files)
    ensures |ListedFiles(root, files)| == |Stored(root, files)|
  {
    NodePathsCardinality(root, Stored(root, files));
    forall p ensures p in ListedFiles(root, files) <==> p in NodePaths(root, Stored(root, files)) {
      if p in NodePaths(root, Stored(root, files)) {
        var d :| d in Stored(root, files) && p == NodePath(root, d);
        StoredMeansNodeFile(root, files, d);
        NodePathIsListed(root, d);
      }
    }
    assert ListedFiles(root, files) == NodePaths(root, Stored(root, files));
  }

  lemma AccountsAdd(root: Path, before: Files, files: Files, after: Files, nodes: nat, blobs: nat, bytes: nat,
                    nodes': nat, blobs': nat, bytes': nat)
    requires Accounts(root, before, files, nodes, blobs, bytes) && Accounts(root, files, after, nodes', blobs', bytes')
    ensures Accounts(root, before, after, nodes + nodes', blobs + blobs', bytes + bytes')
  {
    hide Stored, StoredBlobs, TotalBytes;
  }

  lemma StaleAreLocks(root: Path, files: Files, stale: set<string>, locks: set<Path>)
    requires locks <= StaleLocks(root, files, stale)
    ensures forall p :: p in locks ==> IsLockPath(root, p) && FileName(p) in stale
  {
  }

  lemma AccountsNone(root: Path, files: Files)
    ensures Accounts(root, files, files, 0, 0, 0)
  {
    hide Stored, StoredBlobs, TotalBytes;
  }

  lemma LockIsThere(root: Path, before: Files, files: Files, dirs: set<Path>, stale: set<string>, p: Path,
                    locks: set<Path>)
    requires WellFormed(root, files, dirs) && files == before - locks
    requires p in StaleLocks(root, before, stale) && p !in locks
    ensures p in files && p !in dirs
  {
  }

  lemma MinusTwice(files: Files, locks: set<Path>, p: Path)
    ensures files - locks - {p} == files - (locks + {p})
  {
  }

  lemma NothingSwept(root: Path, files: Files, list: seq<Digest>)
    ensures SweptTo(root, files, list, 0, files)
    ensures files - ToSet(Doomed(root, list)[..0]) == files
  {
    assert Doomed(root, list)[..0] == [];
  }

  lemma SweptNone(root: Path, before: Files, list: seq<Digest>, after: Files)
    requires SweptTo(root, before, list, 0, after)
    ensures after == before
  {
    NothingSwept(root, before, list);
  }

  lemma RootsAreListed(root: Path, files: Files, roots: seq<Digest>)
    requires roots != [] && ToSet(roots) <= Stored(root, files)
    ensures |ListedFiles(root, files)| > 0
  {
    assert roots[0] in ToSet(roots);
    StoredMeansNodeFile(root, files, roots[0]);
    NodePathIsListed(root, roots[0]);
    assert NodePath(root, roots[0]) in ListedFiles(root, files);
  }

  /** Removing lock files alone is an interrupted collection and changes no condition it checks. */
  lemma LocksGone(root: Path, files: Files, locks: set<Path>, roots: set<Digest>)
    requires forall p :: p in locks ==> IsLockPath(root, p)
    ensures Interrupted(root, files, files - locks, roots)
    ensures locks == {} ==> files - locks == files
    ensures Garbage(root, files - locks, roots) == Garbage(root, files, roots)
    ensures forall rs :: ToSet(rs) == roots ==> (Admissible(root, files - locks, rs) <==> Admissible(root, files, rs))
    ensures forall rs, e :: ToSet(rs) == roots ==>
              (Refused(root, files - locks, rs, e) <==> Refused(root, files, rs, e))
  {
    LocksAreNoNodes(root, files, locks);
  }

  lemma NodePathUnderRoot(root: Path, d: Digest)
    ensures Under(root, NodePath(root, d))
  {
    assert NodePath(root, d)[..|root|] == root;
  }
}
