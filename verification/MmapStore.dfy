/** The content-addressed store: files on disk behind a size-bounded LRU cache of node files, and the
breadth-first walk over the stored DAG. */
module MmapStore {
  import opened Wrappers
  import opened StoreLayout
  import opened StoreFiles
  import opened StoredBytes
  import opened Graph

  datatype Lookup = NotFound | Corrupted | Archived(edges: seq<Digest>)

  /** Every cached node is the node file on disk. */
  ghost predicate Coherent(root: Path, files: Files, cache: map<Digest, File>) {
    forall d :: d in cache ==> NodePath(root, d) in files && files[NodePath(root, d)] == cache[d]
  }

  lemma CacheBytes(root: Path, files: Files, cache: map<Digest, File>)
    requires Coherent(root, files, cache)
    ensures TotalBytes(cache) == BytesOf(root, files, cache.Keys)
  {
    hide NodePath;
    assert cache == NodeFiles(root, files, cache.Keys);
  }

  /** The queue that decides what is evicted next holds exactly the cached nodes, once each. */
  ghost predicate Queued(cache: map<Digest, File>, lru: seq<Digest>) {
    NoDuplicates(lru) && forall x :: x in lru <==> x in cache
  }

  /** What a walk knows after visiting `nodes`: only readable digests of `live` were visited, and
      every edge out of a visited node leads to a digest that was met or is queued. */
  ghost predicate WalkInv(g: map<Digest, set<Digest>>, live: set<Digest>, readable: set<Digest>,
                          roots: set<Digest>, visited: set<Digest>, queue: seq<Digest>, nodes: seq<Digest>) {
    && NoDuplicates(nodes)
    && ToSet(nodes) == visited * g.Keys
    && ToSet(nodes) <= live * readable
    && (forall r :: r in roots ==> r in visited || r in queue)
    && (forall a, b :: a in nodes && Edge(g, a, b) ==> b in visited || b in queue)
    && (forall d :: d in queue && d in g ==> d in live)
  }

  /** The digests of g, readable and withBlob are those with a node file, with a node file that
      validates, and with a blob file; g holds the edges. */
  ghost predicate Represents(root: Path, files: Files, g: map<Digest, set<Digest>>,
                             readable: set<Digest>, withBlob: set<Digest>) {
    forall d: Digest {:trigger NodePath(root, d)} :: RepresentsAt(root, files, g, readable, withBlob, d)
  }

  ghost predicate RepresentsAt(root: Path, files: Files, g: map<Digest, set<Digest>>,
                               readable: set<Digest>, withBlob: set<Digest>, d: Digest) {
    && (d in g <==> NodePath(root, d) in files)
    && (d in g ==> g[d] == EdgeSet(files[NodePath(root, d)]))
    && (d in readable <==> NodePath(root, d) in files && files[NodePath(root, d)].archive.Some?)
    && (d in withBlob <==> BlobPath(root, d) in files)
  }

  lemma DagRepresents(root: Path, files: Files)
    ensures Represents(root, files, Dag(root, files), Readable(root, files), StoredBlobs(root, files))
  {
    forall d: Digest
      ensures RepresentsAt(root, files, Dag(root, files), Readable(root, files), StoredBlobs(root, files), d)
    {
      DagLookup(root, files, d);
      StoredMeansNodeFile(root, files, d);
    }
  }

  lemma WalkStarts(g: map<Digest, set<Digest>>, live: set<Digest>, readable: set<Digest>, roots: seq<Digest>)
    requires Closed(g, ToSet(roots), live)
    ensures WalkInv(g, live, readable, ToSet(roots), {}, roots, [])
  {
  }

  lemma WalkEnds(g: map<Digest, set<Digest>>, live: set<Digest>, readable: set<Digest>,
                 roots: set<Digest>, visited: set<Digest>, nodes: seq<Digest>)
    requires WalkInv(g, live, readable, roots, visited, [], nodes)
    ensures NoDuplicates(nodes) && ToSet(nodes) <= live * readable && Closed(g, roots, ToSet(nodes))
  {
  }

  lemma QueuedIsLive(g: map<Digest, set<Digest>>, live: set<Digest>, readable: set<Digest>,
                     roots: set<Digest>, visited: set<Digest>, queue: seq<Digest>, nodes: seq<Digest>)
    requires WalkInv(g, live, readable, roots, visited, queue, nodes) && queue != []
    ensures queue[0] in g ==> queue[0] in live
  {
  }

  lemma WalkSkips(g: map<Digest, set<Digest>>, live: set<Digest>, readable: set<Digest>,
                  roots: set<Digest>, visited: set<Digest>, queue: seq<Digest>, nodes: seq<Digest>)
    requires WalkInv(g, live, readable, roots, visited, queue, nodes) && queue != []
    requires queue[0] in visited || queue[0] !in g
    ensures WalkInv(g, live, readable, roots, visited + {queue[0]}, queue[1..], nodes)
    ensures queue[0] in visited ==> visited + {queue[0]} == visited
  {
    assert forall d :: d in queue ==> d == queue[0] || d in queue[1..];
  }

  lemma WalkVisits(g: map<Digest, set<Digest>>, live: set<Digest>, readable: set<Digest>,
                   roots: set<Digest>, visited: set<Digest>, queue: seq<Digest>, nodes: seq<Digest>,
                   edges: seq<Digest>)
    requires WalkInv(g, live, readable, roots, visited, queue, nodes) && queue != []
    requires queue[0] in g && queue[0] in readable && queue[0] !in visited && g[queue[0]] == ToSet(edges)
    requires Closed(g, roots, live)
    ensures WalkInv(g, live, readable, roots, visited + {queue[0]}, queue[1..] + edges, nodes + [queue[0]])
  {
    var d := queue[0];
    assert d in queue && d in live;
    assert forall x :: x in queue ==> x == d || x in queue[1..];
    assert forall x :: x in queue[1..] ==> x in queue;
    assert ToSet(nodes + [d]) == ToSet(nodes) + {d};
    forall b | b in edges && b in g ensures b in live {
      assert Edge(g, d, b);
    }
  }

  /** The sequence without any occurrence of d. */
  function Retain(s: seq<Digest>, d: Digest): seq<Digest> {
    if s == [] then [] else (if s[0] == d then [] else [s[0]]) + Retain(s[1..], d)
  }

  /** The sequence without its first occurrence of d, if it has one. */
  function RemoveFirst(s: seq<Digest>, d: Digest): seq<Digest> {
    if s == [] then [] else if s[0] == d then s[1..] else [s[0]] + RemoveFirst(s[1..], d)
  }

  /** From the front of the queue, the least recently used end, as many entries were evicted as it
      took to come within the limit. */
  ghost predicate FrontEvicted(limit: Option<nat>, before: map<Digest, File>, queue: seq<Digest>,
                               after: map<Digest, File>, left: seq<Digest>) {
    exists k :: 0 <= k <= |queue| && EvictedTo(limit, before, queue, after, left, k)
  }

  ghost predicate EvictedTo(limit: Option<nat>, before: map<Digest, File>, queue: seq<Digest>,
                            after: map<Digest, File>, left: seq<Digest>, k: nat)
    requires k <= |queue|
  {
    && left == queue[k..] && after == before - ToSet(queue[..k])
    && forall j :: 0 <= j < k ==> !Unlimited(limit) && TotalBytes(before - ToSet(queue[..j])) > limit.value
  }

  lemma NoneEvicted(limit: Option<nat>, cache: map<Digest, File>, queue: seq<Digest>)
    ensures EvictedTo(limit, cache, queue, cache, queue, 0) && FrontEvicted(limit, cache, queue, cache, queue)
  {
    assert queue[..0] == [] && queue[0..] == queue && cache - ToSet(queue[..0]) == cache;
    assert EvictedTo(limit, cache, queue, cache, queue, 0);
  }

  lemma OneMoreEvicted(limit: Option<nat>, before: map<Digest, File>, queue: seq<Digest>,
                       cache: map<Digest, File>, left: seq<Digest>, k: nat)
    requires k <= |queue| && EvictedTo(limit, before, queue, cache, left, k) && left != []
    requires !Unlimited(limit) && TotalBytes(cache) > limit.value
    ensures k < |queue| && EvictedTo(limit, before, queue, cache - {left[0]}, left[1..], k + 1)
  {
    hide TotalBytes;
    assert queue[..k + 1] == queue[..k] + [left[0]];
    assert ToSet(queue[..k + 1]) == ToSet(queue[..k]) + {left[0]};
    assert before - ToSet(queue[..k]) - {left[0]} == before - ToSet(queue[..k + 1]);
  }

  lemma NothingCached(cache: map<Digest, File>)
    requires Queued(cache, [])
    ensures TotalBytes(cache) == 0
  {
    assert cache == map[];
  }

  lemma {:induction false} RetainOthers(s: seq<Digest>, d: Digest)
    ensures forall x :: x in Retain(s, d) <==> x in s && x != d
    ensures NoDuplicates(s) ==> NoDuplicates(Retain(s, d))
  {
    if s != [] {
      RetainOthers(s[1..], d);
      assert NoDuplicates(s) ==> NoDuplicates(s[1..]) && s[0] !in s[1..];
      assert Retain(s, d) == if s[0] == d then Retain(s[1..], d) else [s[0]] + Retain(s[1..], d);
    }
  }

  lemma {:induction false} RetainAll(s: seq<Digest>, d: Digest)
    requires d !in s
    ensures Retain(s, d) == s
  {
    if s != [] { RetainAll(s[1..], d); }
  }

  lemma {:induction false} RetainAround(s: seq<Digest>, k: nat, d: Digest)
    requires k < |s| && s[k] == d && d !in s[..k] && d !in s[k + 1..]
    ensures Retain(s, d) == s[..k] + s[k + 1..]
  {
    if k == 0 {
      RetainAll(s[1..], d);
    } else {
      var t := s[1..];
      assert s[0] == s[..k][0] && t[..k - 1] == s[..k][1..] && t[k..] == s[k + 1..];
      RetainAround(t, k - 1, d);
      assert s[..k] == [s[0]] + t[..k - 1];
    }
  }

  /** The queue stays that of the cache when an entry leaves both. */
  lemma DroppedFromQueue(cache: map<Digest, File>, lru: seq<Digest>, d: Digest)
    requires Queued(cache, lru)
    ensures Queued(cache - {d}, Retain(lru, d))
    ensures lru != [] ==> lru[0] in cache && Queued(cache - {lru[0]}, lru[1..])
  {
    RetainOthers(lru, d);
    hide Retain;
  }

  lemma DroppedInPlace(cache: map<Digest, File>, lru: seq<Digest>, d: Digest)
    requires Queued(cache, lru)
    ensures d in lru <==> d in cache
    ensures forall k :: 0 <= k < |lru| && lru[k] == d ==> Retain(lru, d) == lru[..k] + lru[k + 1..]
  {
    hide Retain;
    forall k | 0 <= k < |lru| && lru[k] == d ensures Retain(lru, d) == lru[..k] + lru[k + 1..] {
      assert d !in lru[..k] && d !in lru[k + 1..];
      RetainAround(lru, k, d);
    }
  }

  lemma PutInQueue(cache: map<Digest, File>, lru: seq<Digest>, d: Digest, file: File)
    requires Queued(cache, lru) && d !in cache
    ensures Queued(cache[d := file], lru + [d])
  {
  }

  lemma MovedInQueue(cache: map<Digest, File>, lru: seq<Digest>, d: Digest)
    requires Queued(cache, lru) && d in cache
    ensures Queued(cache, RemoveFirst(lru, d) + [d])
  {
    RemoveFirstKeeps(lru, d);
    hide RemoveFirst;
    var k :| 0 <= k < |lru| && lru[k] == d;
    assert d !in lru[..k];
  }

  /** The first occurrence goes, and the others keep their order. */
  lemma {:induction false} RemoveFirstKeeps(s: seq<Digest>, d: Digest)
    ensures forall x :: x in s && x != d ==> x in RemoveFirst(s, d)
    ensures forall k :: 0 <= k < |s| && s[k] == d && d !in s[..k] ==> RemoveFirst(s, d) == s[..k] + s[k + 1..]
  {
    if s != [] {
      RemoveFirstKeeps(s[1..], d);
      forall k | 0 < k < |s| && s[k] == d && d !in s[..k] ensures RemoveFirst(s, d) == s[..k] + s[k + 1..] {
        assert s[..k] == [s[0]] + s[1..][..k - 1] && s[1..][k - 1] == d && s[1..][k..] == s[k + 1..];
        assert s[0] in s[..k];
      }
    }
  }

  class Store {
    const root: Path
    const maxNodeCacheBytes: Option<nat>
    var files: Files
    var dirs: set<Path>
    var cache: map<Digest, File>
    var lru: seq<Digest>
    var nodeCacheBytes: nat
    var blobCacheBytes: nat
    /** The files and directories whose removal the file system refuses. */
    var denied: set<Path>

    ghost predicate CacheValid()
      reads this
    {
      Coherent(root, files, cache) && nodeCacheBytes == TotalBytes(cache) && Queued(cache, lru)
    }

    ghost predicate Valid()
      reads this
    {
      WellFormed(root, files, dirs) && CacheValid()
    }

    /** Opens the store on a directory tree found on disk, with nothing cached. */
    constructor (root: Path, files: Files, dirs: set<Path>, denied: set<Path>, maxNodeCacheBytes: Option<nat>)
      requires WellFormed(root, files, dirs)
      ensures Valid() && this.root == root && this.files == files && this.dirs == dirs && this.denied == denied
      ensures cache == map[] && blobCacheBytes == 0 && this.maxNodeCacheBytes == maxNodeCacheBytes
    {
      this.root, this.files, this.dirs, this.denied := root, files, dirs, denied;
      this.maxNodeCacheBytes := maxNodeCacheBytes;
      cache, lru, nodeCacheBytes, blobCacheBytes := map[], [], 0, 0;
    }

    predicate Exists(d: Digest)
      reads this
    {
      d in cache || NodePath(root, d) in files
    }

    lemma ValidMeans()
      requires Valid()
      ensures WellFormed(root, files, dirs) && root in dirs && Coherent(root, files, cache)
      ensures nodeCacheBytes == TotalBytes(cache) && CachedBytes() == nodeCacheBytes + blobCacheBytes
    {
    }

    function CachedBytes(): nat
      reads this
    {
      nodeCacheBytes + blobCacheBytes
    }

    /** Drops one cache entry and its share of the byte counter. */
    method EvictCacheEntry(d: Digest)
      requires CacheValid()
      modifies this`cache, this`lru, this`nodeCacheBytes
      ensures CacheValid() && cache == old(cache) - {d}
      ensures d !in old(cache) ==> lru == old(lru)
      ensures forall k :: 0 <= k < |old(lru)| && old(lru)[k] == d ==> lru == old(lru)[..k] + old(lru)[k + 1..]
    {
      hide NodePath, BlobPath, Queued, Retain, TotalBytes;
      DroppedInPlace(cache, lru, d);
      if d in cache {
        TotalBytesRemove(cache, d);
        DroppedFromQueue(cache, lru, d);
        nodeCacheBytes := nodeCacheBytes - cache[d].size;
        cache := cache - {d};
        lru := Retain(lru, d);
      }
    }

    /** Evicts least recently used entries while the counter is over the limit. */
    method EvictLru()
      requires CacheValid()
      modifies this`cache, this`lru, this`nodeCacheBytes
      ensures CacheValid()
      ensures Trimmed(root, files, maxNodeCacheBytes, old(cache).Keys, old(nodeCacheBytes), cache.Keys, nodeCacheBytes)
      ensures FrontEvicted(maxNodeCacheBytes, old(cache), old(lru), cache, lru)
    {
      hide NodePath, BlobPath, TotalBytes, RemoveFirst, EvictedTo, Queued;
      NoneEvicted(maxNodeCacheBytes, cache, lru);
      if Unlimited(maxNodeCacheBytes) { return; }
      var max := maxNodeCacheBytes.value;
      ghost var k := 0;
      while nodeCacheBytes > max && lru != []
        invariant CacheValid() && cache.Keys <= old(cache).Keys && nodeCacheBytes <= old(nodeCacheBytes)
        invariant cache.Keys != old(cache).Keys ==>
                    max < old(nodeCacheBytes) &&
                      FillsLimit(root, files, maxNodeCacheBytes, old(cache).Keys, nodeCacheBytes)
        invariant 0 <= k <= |old(lru)| && EvictedTo(maxNodeCacheBytes, old(cache), old(lru), cache, lru, k)
        decreases |lru|
      {
        var oldest := lru[0];
        OneMoreEvicted(maxNodeCacheBytes, old(cache), old(lru), cache, lru, k);
        DroppedFromQueue(cache, lru, oldest);
        k := k + 1;
        if oldest in cache {
          TotalBytesRemove(cache, oldest);
          nodeCacheBytes := nodeCacheBytes - cache[oldest].size;
          cache := cache - {oldest};
        }
        lru := lru[1..];
      }
      if lru == [] { NothingCached(cache); }
    }

    /** Reads a node through the cache and validates its archive. */
    method GetArchived(d: Digest) returns (r: Lookup)
      requires CacheValid()
      modifies this`cache, this`lru, this`nodeCacheBytes
      ensures CacheValid()
      ensures r.NotFound? <==> NodePath(root, d) !in files
      ensures r.NotFound? ==> cache == old(cache) && lru == old(lru)
      ensures r.Archived? ==> files[NodePath(root, d)].archive == Some(r.edges)
      ensures r.Corrupted? ==> files[NodePath(root, d)].archive == None
      ensures !r.NotFound? ==> ReadThrough(root, files, maxNodeCacheBytes, old(cache).Keys, old(nodeCacheBytes), d,
                                           cache.Keys, nodeCacheBytes)
      ensures d in old(cache) ==>
                FrontEvicted(maxNodeCacheBytes, old(cache), RemoveFirst(old(lru), d) + [d], cache, lru)
      ensures d !in old(cache) && !r.NotFound? ==>
                && lru != [] && lru[|lru| - 1] == d
                && FrontEvicted(maxNodeCacheBytes, old(cache), old(lru), cache - {d}, lru[..|lru| - 1])
    {
      hide NodePath, BlobPath, TotalBytes, RemoveFirst, FrontEvicted, Queued;
      var file: File;
      if d in cache {
        file := cache[d];
        MovedInQueue(cache, lru, d);
        lru := RemoveFirst(lru, d) + [d];
        EvictLru();
        assert old(cache).Keys + {d} == old(cache).Keys;
      } else {
        var p := NodePath(root, d);
        if p !in files { return NotFound; }
        file := files[p];
        EvictLru();
        ghost var before, queue := cache, lru;
        PutInQueue(cache, lru, d, file);
        lru := lru + [d];
        assert lru[..|lru| - 1] == queue;
        nodeCacheBytes := nodeCacheBytes + file.size;
        cache := cache[d := file];
        TotalBytesRemove(cache, d);
        assert cache - {d} == before;
      }
      r := match file.archive
           case Some(edges) => Archived(edges)
           case None => Corrupted;
    }

    /** walk_reachable: breadth first from the roots.  It succeeds exactly when no live node is
        corrupted, and then returns exactly the live digests, once each, and those among them that
        have a blob file. */
    method WalkReachable(roots: seq<Digest>) returns (r: Result<(seq<Digest>, seq<Digest>), Digest>)
      requires Valid()
      modifies this`cache, this`lru, this`nodeCacheBytes
      ensures Valid()
      ensures r.Ok? <==> Live(Dag(root, files), ToSet(roots)) <= Readable(root, files)
      ensures r.Ok? ==>
                && NoDuplicates(r.value.0)
                && ToSet(r.value.0) == Live(Dag(root, files), ToSet(roots))
                && ToSet(r.value.1) == ToSet(r.value.0) * StoredBlobs(root, files)
      ensures r.Err? ==> r.error in Live(Dag(root, files), ToSet(roots)) - Readable(root, files)
      ensures r.Ok? ==> Filled(root, files, maxNodeCacheBytes, old(cache).Keys, Live(Dag(root, files), ToSet(roots)),
                               cache.Keys, nodeCacheBytes)
    {
      hide NodePath, BlobPath, Live, Dag, Readable, StoredBlobs, WellFormed, Coherent, TotalBytes;
      ghost var g, readable := Dag(root, files), Readable(root, files);
      ghost var live := Live(g, ToSet(roots));
      LiveClosed(g, ToSet(roots));
      DagRepresents(root, files);
      r := WalkFrom(roots, g, live, readable, StoredBlobs(root, files));
      if r.Ok? { LiveLeast(g, ToSet(roots), ToSet(r.value.0)); }
    }

    lemma CacheWeight()
      requires CacheValid()
      ensures nodeCacheBytes == BytesOf(root, files, cache.Keys)
    {
      CacheBytes(root, files, cache);
    }

    /** What the store knows of a digest is what the graph that represents it says. */
    lemma Meets(g: map<Digest, set<Digest>>, readable: set<Digest>, withBlob: set<Digest>, d: Digest)
      requires CacheValid() && Represents(root, files, g, readable, withBlob)
      ensures Exists(d) <==> d in g
      ensures NodePath(root, d) in files <==> d in g
      ensures BlobPath(root, d) in files <==> d in withBlob
      ensures d in g ==> (d in readable <==> files[NodePath(root, d)].archive.Some?)
      ensures d in readable ==> d in g && g[d] == ToSet(files[NodePath(root, d)].archive.value)
    {
      hide NodePath, BlobPath, TotalBytes;
      assert RepresentsAt(root, files, g, readable, withBlob, d);
    }

    /** The loop of WalkReachable, over any graph that represents the files and any closed set. */
    method WalkFrom(roots: seq<Digest>, ghost g: map<Digest, set<Digest>>, ghost live: set<Digest>,
                    ghost readable: set<Digest>, ghost withBlob: set<Digest>)
      returns (r: Result<(seq<Digest>, seq<Digest>), Digest>)
      requires CacheValid() && Represents(root, files, g, readable, withBlob)
      requires Closed(g, ToSet(roots), live)
      modifies this`cache, this`lru, this`nodeCacheBytes
      ensures CacheValid()
      ensures r.Ok? ==>
                && NoDuplicates(r.value.0)
                && ToSet(r.value.0) <= live * readable
                && Closed(g, ToSet(roots), ToSet(r.value.0))
                && ToSet(r.value.1) == ToSet(r.value.0) * withBlob
      ensures r.Err? ==> r.error in live * g.Keys - readable
      ensures r.Ok? ==>
                Filled(root, files, maxNodeCacheBytes, old(cache).Keys, ToSet(r.value.0), cache.Keys, nodeCacheBytes)
    {
      hide *;
      var visited: set<Digest>, queue, nodes: seq<Digest>, blobs: seq<Digest> := {}, roots, [], [];
      WalkStarts(g, live, readable, roots);
      NothingGathered(root, files, maxNodeCacheBytes, withBlob, cache.Keys, nodeCacheBytes);
      while queue != []
        invariant CacheValid()
        invariant WalkInv(g, live, readable, ToSet(roots), visited, queue, nodes)
        invariant HaveBlobs(withBlob, nodes, blobs)
        invariant Filled(root, files, maxNodeCacheBytes, old(cache).Keys, ToSet(nodes), cache.Keys, nodeCacheBytes)
        decreases |g.Keys - visited|, |queue|
      {
        var d := queue[0];
        if d in visited {
          WalkSkips(g, live, readable, ToSet(roots), visited, queue, nodes);
          queue := queue[1..];
          continue;
        }
        RemoveOne(g.Keys, visited, d);
        Meets(g, readable, withBlob, d);
        if !Exists(d) {
          WalkSkips(g, live, readable, ToSet(roots), visited, queue, nodes);
          visited, queue := visited + {d}, queue[1..];
          continue;
        }
        ghost var before, cached, had := blobs, cache.Keys, nodeCacheBytes;
        CacheWeight();
        if BlobPath(root, d) in files { blobs := blobs + [d]; }
        var found := GetArchived(d);
        match found
        case Archived(edges) =>
          CacheWeight();
          FilledOneMore(root, files, maxNodeCacheBytes, old(cache).Keys, ToSet(nodes), cached, had, d, cache.Keys,
            nodeCacheBytes);
          GatherOne(withBlob, nodes, before, d);
          WalkVisits(g, live, readable, ToSet(roots), visited, queue, nodes, edges);
          visited, queue, nodes := visited + {d}, queue[1..] + edges, nodes + [d];
        case Corrupted =>
          QueuedIsLive(g, live, readable, ToSet(roots), visited, queue, nodes);
          return Err(d);
        case NotFound =>
          assert false;
      }
      WalkEnds(g, live, readable, ToSet(roots), visited, nodes);
      GatheredMeans(withBlob, nodes, blobs);
      r := Ok((nodes, blobs));
    }
  }

  /** `blobs` are the digests among `nodes` that have a blob file. */
  ghost predicate HaveBlobs(withBlob: set<Digest>, nodes: seq<Digest>, blobs: seq<Digest>) {
    ToSet(blobs) == ToSet(nodes) * withBlob
  }

  lemma NothingGathered(root: Path, files: Files, limit: Option<nat>, withBlob: set<Digest>, cached: set<Digest>,
                        total: nat)
    ensures HaveBlobs(withBlob, [], []) && Filled(root, files, limit, cached, ToSet([]), cached, total)
  {
    hide BytesOf;
    FilledNone(root, files, limit, cached, total);
    assert ToSet<Digest>([]) == {};
  }

  lemma GatherOne(withBlob: set<Digest>, nodes: seq<Digest>, blobs: seq<Digest>, d: Digest)
    requires HaveBlobs(withBlob, nodes, blobs)
    ensures HaveBlobs(withBlob, nodes + [d], if d in withBlob then blobs + [d] else blobs)
    ensures ToSet(nodes + [d]) == ToSet(nodes) + {d}
  {
    assert ToSet(nodes + [d]) == ToSet(nodes) + {d};
    assert ToSet(blobs + [d]) == ToSet(blobs) + {d};
  }

  lemma GatheredMeans(withBlob: set<Digest>, nodes: seq<Digest>, blobs: seq<Digest>)
    requires HaveBlobs(withBlob, nodes, blobs)
    ensures ToSet(blobs) == ToSet(nodes) * withBlob
  {
  }

  lemma RemoveOne<T>(keys: set<T>, visited: set<T>, d: T)
    requires d !in visited
    ensures d in keys ==> |keys - (visited + {d})| < |keys - visited|
    ensures d !in keys ==> keys - (visited + {d}) == keys - visited
  {
    assert keys - (visited + {d}) == keys - visited - {d};
  }
}
