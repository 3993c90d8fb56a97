/** The size guard of a collection: what it weighs, and what that protects. */
module SizeGuard {
  import opened Wrappers
  import opened Graph
  import opened StoreLayout
  import opened StoreFiles
  import opened StoredBytes
  import opened Collection
  import opened Enumeration
  import opened Marking
  import opened MmapStore

  const MIB: nat := 1024 * 1024
  const GUARD_MIN_BYTES := 100 * MIB
  const GUARD_MAX_PCT := 90
  const DEFAULT_MAX_NODE_CACHE_BYTES: nat := 256 * MIB

  /** The bytes of the node files of a list, as the size guard adds them up. */
  function NodeBytes(root: Path, files: Files, list: seq<Digest>): nat {
    if list == [] then 0
    else
      var n := |list| - 1;
      var p := NodePath(root, list[n]);
      NodeBytes(root, files, list[..n]) + if p in files then files[p].size else 0
  }

  /** The verdict of the size guard on the bytes to free and the bytes it takes for the total. */
  predicate GuardTrips(unreachableBytes: nat, totalBytes: nat): (trips: bool)
    ensures trips ==> totalBytes > 0
  {
    totalBytes > GUARD_MIN_BYTES && unreachableBytes * 100 / totalBytes >= GUARD_MAX_PCT
  }

  ghost function StoreBytes(root: Path, files: Files): nat {
    BytesOf(root, files, Stored(root, files))
  }

  ghost function LiveBytes(root: Path, files: Files, roots: set<Digest>): nat {
    BytesOf(root, files, LiveNodes(root, files, roots))
  }

  /** The node file of the digest each path stands for, where there is one. */
  ghost function Weights(root: Path, files: Files, paths: set<Path>): map<Path, File> {
    map p | p in paths && DigestFromPath(p).Some? && NodePath(root, DigestFromPath(p).value) in files ::
      files[NodePath(root, DigestFromPath(p).value)]
  }

  /** The bytes a collection is about to free, as the guard counts them: for each listed file that
      stands for an unreachable digest, the size of the node file of that digest. */
  ghost function GarbageBytes(root: Path, files: Files, roots: set<Digest>): nat {
    TotalBytes(Weights(root, files, UnreachableFiles(root, files, LiveNodes(root, files, roots))))
  }

  lemma WeightsOneMore(root: Path, files: Files, paths: set<Path>, p: Path, d: Digest)
    requires p !in paths && DigestFromPath(p) == Some(d)
    ensures TotalBytes(Weights(root, files, paths + {p})) ==
            TotalBytes(Weights(root, files, paths)) +
              if NodePath(root, d) in files then files[NodePath(root, d)].size else 0
  {
    hide NodePath, TotalBytes, DigestFromPath;
    var more := Weights(root, files, paths + {p});
    if NodePath(root, d) in files {
      TotalBytesRemove(more, p);
      assert more - {p} == Weights(root, files, paths);
    } else {
      assert more == Weights(root, files, paths);
    }
  }

  /** The unreachable list weighs what the listed files behind it do. */
  lemma {:induction false} PlanWeighs(root: Path, files: Files, paths: seq<Path>, all: seq<Digest>, live: set<Digest>)
    requires NoDuplicates(paths) && Decodes([], paths, all)
    ensures NodeBytes(root, files, Unreachable(all, live)) ==
              TotalBytes(Weights(root, files, PathsOutside(paths, live)))
  {
    hide NodePath, TotalBytes, DigestFromPath;
    if paths == [] {
      NothingWeighs(root, files);
      assert PathsOutside(paths, live) == {};
    } else {
      var n := |paths| - 1;
      var kept := Unreachable(all[..n], live);
      PlanWeighs(root, files, paths[..n], all[..n], live);
      assert paths[n] !in paths[..n];
      if all[n] in live {
        assert PathsOutside(paths, live) == PathsOutside(paths[..n], live);
        assert Unreachable(all, live) == kept;
      } else {
        assert PathsOutside(paths, live) == PathsOutside(paths[..n], live) + {paths[n]};
        WeightsOneMore(root, files, PathsOutside(paths[..n], live), paths[n], all[n]);
        assert (kept + [all[n]])[..|kept|] == kept;
      }
    }
  }

  lemma NothingWeighs(root: Path, files: Files)
    ensures TotalBytes(Weights(root, files, {})) == 0
  {
  }

  lemma {:induction false} NodePathsWeigh(root: Path, files: Files, digests: set<Digest>)
    ensures TotalBytes(Weights(root, files, NodePaths(root, digests))) == BytesOf(root, files, digests)
  {
    hide NodePath, TotalBytes, DigestFromPath, BytesOf, Weights;
    if digests == {} {
      NothingWeighs(root, files);
      NoBytes(root, files);
      assert NodePaths(root, digests) == {};
    } else {
      var d :| d in digests;
      var less := digests - {d};
      NodePathsWeigh(root, files, less);
      forall e | e in less ensures NodePath(root, e) != NodePath(root, d) { PathsInjective(root, d, e); }
      assert NodePaths(root, digests) == NodePaths(root, less) + {NodePath(root, d)};
      PathRoundTrip(root, d);
      WeightsOneMore(root, files, NodePaths(root, less), NodePath(root, d), d);
      BytesOfOneMore(root, files, less, d);
      assert less + {d} == digests;
    }
  }

  /** In a tidy store the live bytes and the bytes the guard counts as unreachable make up the store. */
  lemma GuardSeesAllGarbage(root: Path, files: Files, roots: set<Digest>)
    requires Tidy(root, files)
    ensures GarbageBytes(root, files, roots) + LiveBytes(root, files, roots) == StoreBytes(root, files)
  {
    hide NodePath, BytesOf, Weights, TotalBytes, IsListed;
    var live, stored := LiveNodes(root, files, roots), Stored(root, files);
    LiveClosed(Dag(root, files), roots);
    assert live <= stored;
    TidyUnreachable(root, files, live);
    NodePathsWeigh(root, files, stored - live);
    BytesOfUnion(root, files, live, stored - live);
    assert live + (stored - live) == stored;
  }

  lemma TidyUnreachable(root: Path, files: Files, live: set<Digest>)
    requires Tidy(root, files)
    ensures UnreachableFiles(root, files, live) == NodePaths(root, Stored(root, files) - live)
  {
    hide NodePath, IsListed, DigestFromPath;
    forall p ensures p in UnreachableFiles(root, files, live) <==> p in NodePaths(root, Stored(root, files) - live) {
      if p in UnreachableFiles(root, files, live) {
        var d := DigestFromPath(p).value;
        assert d in Stored(root, files) && p == NodePath(root, d);
      }
      if p in NodePaths(root, Stored(root, files) - live) {
        var d :| d in Stored(root, files) - live && p == NodePath(root, d);
        StoredMeansNodeFile(root, files, d);
        NodePathIsListed(root, d);
        PathRoundTrip(root, d);
      }
    }
  }

  lemma TidyListsStored(root: Path, files: Files)
    requires Tidy(root, files)
    ensures ListedDigests(root, files) == Stored(root, files)
  {
    hide NodePath, IsListed, DigestFromPath;
    StoredAreListed(root, files);
    forall d | d in ListedDigests(root, files) ensures d in Stored(root, files) {
      var p :| p in files && IsListed(root, p) && DigestFromPath(p).value == d;
      assert IsNodePath(root, p);
    }
  }

  /** What the guard takes for the size of the store after marking, of which n bytes are nodes: the
      nodes cached before and the live ones if they fit the cache, and otherwise the limit of the
      cache, to within the size of one node either way. */
  ghost predicate Weighs(root: Path, files: Files, limit: Option<nat>, cached: set<Digest>, roots: set<Digest>,
                         n: int) {
    var live := LiveNodes(root, files, roots);
    var all := BytesOf(root, files, cached + live);
    && n <= all
    && (Unlimited(limit) || all <= limit.value ==> n == all)
    && (n != all ==> FillsLimit(root, files, limit, cached + live, n))
    && (live != {} ==> KeepsLimit(root, files, limit, live, n))
  }

  lemma CacheWeighs(root: Path, files: Files, limit: Option<nat>, cache: map<Digest, File>, before: set<Digest>,
                    roots: set<Digest>, total: nat)
    requires Coherent(root, files, cache) && total == TotalBytes(cache)
    requires Filled(root, files, limit, before, LiveNodes(root, files, roots), cache.Keys, total)
    ensures Weighs(root, files, limit, before, roots, total)
  {
    hide NodePath, BytesOf, LiveNodes, TotalBytes, Coherent, FillsLimit, KeepsLimit;
    CacheBytes(root, files, cache);
    BytesOfSubset(root, files, cache.Keys, before + LiveNodes(root, files, roots));
  }

  /** The verdict of the guard on a collection in a process that has cached the nodes `cached` and
      `blobs` bytes of blobs.  It weighs the garbage against these and the live nodes; if the nodes
      do not fit the cache, against its limit and the blobs, and then the verdict is decided but for
      the size of one node around that. */
  ghost predicate GuardVerdict(root: Path, files: Files, limit: Option<nat>, cached: set<Digest>, blobs: nat,
                               roots: set<Digest>, refuses: bool) {
    var nodes, garbage := cached + LiveNodes(root, files, roots), GarbageBytes(root, files, roots);
    var all := BytesOf(root, files, nodes);
    && (refuses ==> all + blobs > GUARD_MIN_BYTES)
    && (Unlimited(limit) || all <= limit.value ==>
          (refuses <==> all + blobs > GUARD_MIN_BYTES && 9 * (all + blobs) <= 10 * garbage))
    && (!Unlimited(limit) && limit.value < all ==>
          forall big: nat :: NoneLarger(root, files, nodes, big) ==>
            && (GUARD_MIN_BYTES + big <= limit.value + blobs && 9 * (limit.value + blobs + big) <= 10 * garbage ==>
                 refuses)
            && (10 * garbage <= 9 * (limit.value + blobs - big) ==> !refuses))
  }

  lemma GuardIff(root: Path, files: Files, limit: Option<nat>, cached: set<Digest>, blobs: nat, roots: set<Digest>,
                 weighed: nat)
    requires Weighs(root, files, limit, cached, roots, weighed - blobs) && LiveNodes(root, files, roots) != {}
    ensures GuardVerdict(root, files, limit, cached, blobs, roots,
              GuardTrips(GarbageBytes(root, files, roots), weighed))
  {
    hide NodePath, GarbageBytes, BytesOf, LiveNodes, GuardTrips, NoneLarger;
    GuardIsLinear(GarbageBytes(root, files, roots), weighed);
    var live := LiveNodes(root, files, roots);
    forall big: nat | NoneLarger(root, files, cached + live, big) ensures NoneLarger(root, files, live, big) {
      NoneLargerInSubset(root, files, live, cached + live, big);
    }
  }

  /** The verdict in a fresh process whose cache can hold the live nodes of a tidy store. */
  ghost predicate FreshGuardRefuses(root: Path, files: Files, roots: set<Digest>) {
    var live := LiveBytes(root, files, roots);
    live > GUARD_MIN_BYTES && 19 * live <= 10 * StoreBytes(root, files)
  }

  /** A collector in a fresh process, which has cached nothing, weighs the garbage against the live
      bytes if they fit its cache.  Weighed against the store, as intended, the guard would refuse if
      and only if the store exceeds 100 MiB and at most a tenth of it is live. */
  lemma FreshGuardIff(root: Path, files: Files, limit: Option<nat>, roots: set<Digest>, refuses: bool)
    requires Tidy(root, files) && GuardVerdict(root, files, limit, {}, 0, roots, refuses)
    ensures refuses ==> LiveBytes(root, files, roots) > GUARD_MIN_BYTES
    ensures Unlimited(limit) || LiveBytes(root, files, roots) <= limit.value ==>
              (refuses <==> FreshGuardRefuses(root, files, roots))
    ensures GuardTrips(GarbageBytes(root, files, roots), StoreBytes(root, files)) <==>
            StoreBytes(root, files) > GUARD_MIN_BYTES && 10 * LiveBytes(root, files, roots) <= StoreBytes(root, files)
  {
    hide NodePath, GarbageBytes, BytesOf, LiveNodes, StoreBytes, GuardTrips, NoneLarger;
    assert {} + LiveNodes(root, files, roots) == LiveNodes(root, files, roots);
    GuardSeesAllGarbage(root, files, roots);
    GuardIsLinear(GarbageBytes(root, files, roots), StoreBytes(root, files));
  }

  /** Much live data in small nodes, 300 MiB of garbage, and the default limit. */
  ghost predicate LargeStore(root: Path, files: Files, roots: set<Digest>) {
    && Tidy(root, files) && NoneLarger(root, files, LiveNodes(root, files, roots), MIB)
    && LiveBytes(root, files, roots) >= 1024 * MIB && GarbageBytes(root, files, roots) == 300 * MIB
  }

  /** A fresh process refuses to collect such a store, however small a part of it is garbage, which
      the guard as intended never would; with 80 MiB of blobs cached it does not refuse. */
  lemma LargeStoreIsRefused(root: Path, files: Files, roots: set<Digest>, refuses: bool)
    requires LargeStore(root, files, roots)
    ensures GuardVerdict(root, files, Some(DEFAULT_MAX_NODE_CACHE_BYTES), {}, 0, roots, refuses) ==> refuses
    ensures GuardVerdict(root, files, Some(DEFAULT_MAX_NODE_CACHE_BYTES), {}, 80 * MIB, roots, refuses) ==> !refuses
    ensures !GuardTrips(GarbageBytes(root, files, roots), StoreBytes(root, files))
  {
    hide NodePath, GarbageBytes, BytesOf, StoreBytes, LiveNodes, NoneLarger, GuardTrips, Tidy;
    assert {} + LiveNodes(root, files, roots) == LiveNodes(root, files, roots);
    GuardSeesAllGarbage(root, files, roots);
    GuardIsLinear(GarbageBytes(root, files, roots), StoreBytes(root, files));
  }

  /** Lock files weigh nothing. */
  lemma LocksWeighNothing(root: Path, files: Files, locks: set<Path>, roots: set<Digest>)
    requires forall p :: p in locks ==> IsLockPath(root, p)
    ensures LiveNodes(root, files - locks, roots) == LiveNodes(root, files, roots)
    ensures GarbageBytes(root, files - locks, roots) == GarbageBytes(root, files, roots)
    ensures forall ds :: BytesOf(root, files - locks, ds) == BytesOf(root, files, ds)
    ensures forall ds, big: nat :: NoneLarger(root, files - locks, ds, big) <==> NoneLarger(root, files, ds, big)
  {
    hide NodePath, TotalBytes, Live, DigestFromPath, IsListed, IsLockPath, Dag, UnreachableFiles, Weights, NodeFiles,
         NoneLarger;
    LocksAreNoNodes(root, files, locks);
    LocksAreNotListed(root, files, locks, LiveNodes(root, files, roots));
    NodePathsAreNoLocks(root, locks);
    WeightsStay(root, files, locks, UnreachableFiles(root, files, LiveNodes(root, files, roots)));
    forall ds ensures NodeFiles(root, files - locks, ds) == NodeFiles(root, files, ds) {
      NodeFilesStay(root, files, locks, ds, 0);
    }
    forall ds, big: nat ensures NoneLarger(root, files - locks, ds, big) <==> NoneLarger(root, files, ds, big) {
      NodeFilesStay(root, files, locks, ds, big);
    }
  }

  lemma NodePathsAreNoLocks(root: Path, locks: set<Path>)
    requires forall p :: p in locks ==> IsLockPath(root, p)
    ensures forall d: Digest :: NodePath(root, d) !in locks
  {
    hide NodePath, IsLockPath;
    forall d: Digest ensures NodePath(root, d) !in locks {
      NotLocks(root, d);
    }
  }

  lemma NodeFilesStay(root: Path, files: Files, locks: set<Path>, ds: set<Digest>, big: nat)
    requires forall d: Digest :: NodePath(root, d) !in locks
    ensures NodeFiles(root, files - locks, ds) == NodeFiles(root, files, ds)
    ensures NoneLarger(root, files - locks, ds, big) <==> NoneLarger(root, files, ds, big)
  {
    hide NodePath;
  }

  lemma WeightsStay(root: Path, files: Files, locks: set<Path>, ps: set<Path>)
    requires forall d: Digest :: NodePath(root, d) !in locks
    ensures Weights(root, files - locks, ps) == Weights(root, files, ps)
  {
    hide NodePath, DigestFromPath;
  }

  lemma VerdictWithoutLocks(root: Path, files: Files, locks: set<Path>, limit: Option<nat>, cached: set<Digest>,
                            blobs: nat, roots: set<Digest>, refuses: bool)
    requires forall p :: p in locks ==> IsLockPath(root, p)
    requires GuardVerdict(root, files - locks, limit, cached, blobs, roots, refuses)
    ensures GuardVerdict(root, files, limit, cached, blobs, roots, refuses)
  {
    hide NodePath, GarbageBytes, BytesOf, LiveNodes, NoneLarger, IsLockPath;
    LocksWeighNothing(root, files, locks, roots);
  }

  /** The guard is meant to protect a store of more than 100 MiB from losing 90% of its bytes.  It
      weighs the unreachable bytes against the bytes the process has cached, not against the bytes
      stored, so it does so for every amount of garbage if and only if the store is small anyway or
      the cache holds more than 100 MiB and not more than the store. */
  lemma GuardProtectsIff(storeBytes: nat, cachedBytes: nat)
    ensures (forall u: nat :: GuardTrips(u, storeBytes) ==> GuardTrips(u, cachedBytes)) <==>
            storeBytes <= GUARD_MIN_BYTES ||
            (cachedBytes > GUARD_MIN_BYTES && 9 * cachedBytes <= 10 * ((9 * storeBytes + 9) / 10))
  {
    hide GuardTrips;
    var least := (9 * storeBytes + 9) / 10;
    GuardIsLinear(least, storeBytes);
    GuardIsLinear(least, cachedBytes);
    if storeBytes <= GUARD_MIN_BYTES || (cachedBytes > GUARD_MIN_BYTES && 9 * cachedBytes <= 10 * least) {
      forall u: nat | GuardTrips(u, storeBytes) ensures GuardTrips(u, cachedBytes) {
        GuardIsLinear(u, storeBytes);
        GuardIsLinear(u, cachedBytes);
      }
    } else {
      assert GuardTrips(least, storeBytes) && !GuardTrips(least, cachedBytes);
    }
  }

  lemma GuardIsLinear(u: nat, total: nat)
    ensures GuardTrips(u, total) <==> total > 104857600 && 9 * total <= 10 * u
  {
    if total > GUARD_MIN_BYTES { QuotientAtLeast(u * 100, total, GUARD_MAX_PCT); }
  }

  /** What a refusal reports. */
  lemma GuardReports(u: nat, total: nat)
    requires GuardTrips(u, total)
    ensures u * 100 / total >= 90 && total / 1048576 >= 100
  {
  }

  lemma QuotientAtLeast(x: nat, t: nat, k: nat)
    requires t > 0
    ensures x / t >= k <==> x >= k * t
  {
    var q := x / t;
    assert q * t <= x < q * t + t;
    if q >= k { MulMono(t, k, q); } else { MulMono(t, q + 1, k); }
  }
}
