/** Small stores on which a collection does not do what one would expect. */
module StoreExamples {
  import opened Wrappers
  import opened Graph
  import opened StoreLayout
  import opened StoreFiles
  import opened StoredBytes
  import opened Enumeration
  import opened Collection
  import opened Marking
  import opened Sweep
  import opened SizeGuard
  import opened ConcurrentSweep
  import opened GarbageCollector

  /** The store holds the nodes, none of which has a child, any blobs, and nothing else. */
  ghost predicate Childless(root: Path, files: Files, nodes: set<Digest>) {
    && (forall d :: d in nodes ==> NodePath(root, d) in files && files[NodePath(root, d)].archive == Some([]))
    && (forall p :: p in files ==> exists d :: (d in nodes && p == NodePath(root, d)) || p == BlobPath(root, d))
  }

  lemma ChildlessStore(root: Path, files: Files, nodes: set<Digest>)
    requires Childless(root, files, nodes)
    ensures Stored(root, files) == nodes == ListedDigests(root, files) && Tidy(root, files)
  {
    hide DigestFromPath, IsListed;
    forall d ensures d in Stored(root, files) <==> d in nodes {
      StoredMeansNodeFile(root, files, d);
      NodeOnly(root, files, nodes, d);
    }
    forall p | p in files && IsListed(root, p) ensures IsNodePath(root, p) {
      var d :| (d in nodes && p == NodePath(root, d)) || p == BlobPath(root, d);
      ListedIsNode(root, p, d);
    }
    TidyListsStored(root, files);
  }

  lemma NodeOnly(root: Path, files: Files, nodes: set<Digest>, d: Digest)
    requires Childless(root, files, nodes)
    ensures NodePath(root, d) in files <==> d in nodes
  {
    hide NodePath, BlobPath;
    if NodePath(root, d) in files {
      var e :| (e in nodes && NodePath(root, d) == NodePath(root, e)) || NodePath(root, d) == BlobPath(root, e);
      PathsInjective(root, d, e);
    }
  }

  lemma ListedIsNode(root: Path, p: Path, d: Digest)
    requires IsListed(root, p) && (p == NodePath(root, d) || p == BlobPath(root, d))
    ensures IsNodePath(root, p)
  {
    NodePathIsListed(root, d);
    assert FileName(BlobPath(root, d)) == BLOB_FILE != NODE_FILE;
  }

  lemma ChildlessLive(root: Path, files: Files, nodes: set<Digest>, d: Digest)
    requires Childless(root, files, nodes) && d in nodes
    ensures LiveNodes(root, files, {d}) == {d}
  {
    hide NodePath, BlobPath, Live;
    var g := Dag(root, files);
    DagLookup(root, files, d);
    assert EdgeSet(files[NodePath(root, d)]) == {};
    hide Dag;
    assert Closed(g, {d}, {d});
    LiveLeast(g, {d}, {d});
    LiveClosed(g, {d});
  }

  /** A live node of a bytes and a garbage node of b bytes. */
  ghost function TwoNodes(root: Path, d: Digest, e: Digest, a: nat, b: nat): Files {
    map[NodePath(root, d) := File(a, Some([])), NodePath(root, e) := File(b, Some([]))]
  }

  lemma TwoNodesWeigh(root: Path, d: Digest, e: Digest, a: nat, b: nat)
    requires d != e
    ensures var files := TwoNodes(root, d, e, a, b);
            && Childless(root, files, {d, e}) && Tidy(root, files) && LiveNodes(root, files, {d}) == {d}
            && LiveBytes(root, files, {d}) == a && StoreBytes(root, files) == a + b
            && GarbageBytes(root, files, {d}) == b && BytesOf(root, files, {d, e}) == a + b
  {
    hide NodePath, BlobPath, BytesOf, LiveNodes, Stored, Tidy, GarbageBytes;
    var files := TwoNodes(root, d, e, a, b);
    PathsInjective(root, d, e);
    forall p | p in files ensures exists x :: (x in {d, e} && p == NodePath(root, x)) || p == BlobPath(root, x) {
      assert p == NodePath(root, d) || p == NodePath(root, e);
    }
    ChildlessStore(root, files, {d, e});
    ChildlessLive(root, files, {d, e}, d);
    NoBytes(root, files);
    BytesOfOneMore(root, files, {}, d);
    BytesOfOneMore(root, files, {d}, e);
    assert {} + {d} == {d} && {d} + {e} == {d, e};
    GuardSeesAllGarbage(root, files, {d});
  }

  /** The directories above the files. */
  ghost function DirsAbove(root: Path, files: Files): set<Path> {
    {root} + set p, n | p in files && |root| <= n < |p| :: p[..n]
  }

  /** Such a store can be opened and collected: it is a directory tree, no operation is under way, and
      the root is stored and readable. */
  lemma TwoNodesCollectable(root: Path, d: Digest, e: Digest, a: nat, b: nat)
    requires d != e
    ensures var files := TwoNodes(root, d, e, a, b);
            && WellFormed(root, files, DirsAbove(root, files))
            && FreshLocks(root, files, {}) == {} && Admissible(root, files, [d])
  {
    hide *;
    var files := TwoNodes(root, d, e, a, b);
    TwoNodesSharded(root, d, e, a, b);
    DirsAboveFit(root, files);
    NoLocks(root, files);
    TwoNodesWeigh(root, d, e, a, b);
    ChildlessStore(root, files, {d, e});
    TwoNodesReadable(root, d, e, a, b);
    OneRoot(d);
    AdmissibleIff(root, files, [d]);
  }

  lemma OneRoot(d: Digest)
    ensures ToSet([d]) == {d}
  {
  }

  lemma TwoNodesSharded(root: Path, d: Digest, e: Digest, a: nat, b: nat)
    ensures forall p :: p in TwoNodes(root, d, e, a, b) ==> |p| == |root| + 4 && Under(root, p)
  {
    ShardedPaths(root, d);
    ShardedPaths(root, e);
    hide NodePath;
  }

  lemma TwoNodesReadable(root: Path, d: Digest, e: Digest, a: nat, b: nat)
    requires d != e
    ensures {d} <= Readable(root, TwoNodes(root, d, e, a, b))
  {
    hide NodePath, Readable, Dag;
    PathsInjective(root, d, e);
    DagLookup(root, TwoNodes(root, d, e, a, b), d);
  }

  lemma NoLocks(root: Path, files: Files)
    requires forall p :: p in files ==> |p| == |root| + 4
    ensures FreshLocks(root, files, {}) == {}
  {
  }

  lemma ShardedPaths(root: Path, d: Digest)
    ensures |NodePath(root, d)| == |root| + 4 && Under(root, NodePath(root, d))
  {
    assert NodePath(root, d)[..|root|] == root;
  }

  lemma DirsAboveFit(root: Path, files: Files)
    requires forall p :: p in files ==> |p| == |root| + 4 && Under(root, p)
    ensures WellFormed(root, files, DirsAbove(root, files))
  {
    var dirs := DirsAbove(root, files);
    forall q | q in dirs ensures |root| <= |q| < |root| + 4 && (q != root ==> Under(root, q) && Parent(q) in dirs) {
      if q != root {
        var p, n :| p in files && |root| <= n < |p| && q == p[..n];
        assert p[..n][..|root|] == p[..|root|] == root;
        if n > |root| { assert Parent(q) == p[..n - 1]; }
      }
    }
    forall p | p in files ensures Parent(p) in dirs { assert Parent(p) == p[..|p| - 1]; }
  }

  /** A store of 200 MiB of which one byte is live: a fresh process lets the collection through,
      whatever its cache limit, though all but one byte would go; a process that has cached the
      garbage refuses it. */
  lemma GuardLetsThrough(root: Path, d: Digest, e: Digest, limit: Option<nat>, refuses: bool)
    requires d != e
    ensures var files := TwoNodes(root, d, e, 1, 200 * MIB);
            && GuardTrips(GarbageBytes(root, files, {d}), StoreBytes(root, files))
            && (GuardVerdict(root, files, limit, {}, 0, {d}, refuses) ==> !refuses)
            && (GuardVerdict(root, files, Some(DEFAULT_MAX_NODE_CACHE_BYTES), {e}, 0, {d}, refuses) ==> refuses)
  {
    hide NodePath, TwoNodes, BytesOf, GarbageBytes, StoreBytes, GuardTrips, NoneLarger, Childless, LiveNodes, Tidy;
    TwoNodesWeigh(root, d, e, 1, 200 * MIB);
    GuardIsLinear(200 * MIB, 200 * MIB + 1);
    assert {} + {d} == {d} && {e} + {d} == {d, e};
  }

  /** A store of 210 MiB of which 110 MiB are live: a fresh process refuses to free less than half. */
  lemma GuardRefusesHalf(root: Path, d: Digest, e: Digest, refuses: bool)
    requires d != e
    ensures var files := TwoNodes(root, d, e, 110 * MIB, 100 * MIB);
            && !GuardTrips(GarbageBytes(root, files, {d}), StoreBytes(root, files))
            && (GuardVerdict(root, files, Some(DEFAULT_MAX_NODE_CACHE_BYTES), {}, 0, {d}, refuses) ==> refuses)
  {
    hide NodePath, TwoNodes, BytesOf, GarbageBytes, StoreBytes, GuardTrips, NoneLarger, Childless, LiveNodes, Tidy;
    TwoNodesWeigh(root, d, e, 110 * MIB, 100 * MIB);
    GuardIsLinear(100 * MIB, 210 * MIB);
    assert {} + {d} == {d};
  }

  /** A node and a copy of its file in a directory of its own. */
  ghost function WithCopy(root: Path, d: Digest, f: File): Files {
    map[NodePath(root, d) := f, NodePath(root + ["copy"], d) := f]
  }

  /** With a copy of a live node the counts of the report do not add up, and the store is not tidy. */
  lemma CopyUpsetsCounts(root: Path, d: Digest, f: File)
    ensures var files := WithCopy(root, d, f);
            && {d} <= Stored(root, files) && !Tidy(root, files)
            && |ListedFiles(root, files)| != |{d}| + |UnreachableFiles(root, files, {d})|
  {
    var files, p := WithCopy(root, d, f), NodePath(root + ["copy"], d);
    CopyIsListed(root, d);
    hide NodePath, IsListed, DigestFromPath;
    StoredMeansNodeFile(root, files, d);
    PathRoundTrip(root + ["copy"], d);
    assert p in files && !IsNodePath(root, p);
    assert !NoStrayCopy(root, files, {d});
    CountsAddUpIffNoStrayCopy(root, files, {d});
  }

  lemma CopyIsListed(root: Path, d: Digest)
    ensures IsListed(root, NodePath(root + ["copy"], d)) && NodePath(root + ["copy"], d) != NodePath(root, d)
  {
    var sub := root + ["copy"];
    assert Under(root, sub) && FileName(sub) == "copy";
    NodePathIsListed(sub, d);
    assert |NodePath(sub, d)| == |root| + 5;
    ListedThroughBranch(root, sub, NodePath(sub, d));
  }

  /** A live node, and a garbage node with a blob. */
  ghost function WithBlob(root: Path, d: Digest, e: Digest, f: File): Files {
    TwoNodes(root, d, e, 1, 1)[BlobPath(root, e) := f]
  }

  /** A collection that stops after unlinking the garbage node leaves its blob to no one: a run that
      deletes nothing is then already a completed collection. */
  lemma StoppedSweepLeavesBlob(root: Path, d: Digest, e: Digest, f: File)
    requires d != e
    ensures var before := WithBlob(root, d, e, f);
            var mid := before - {NodePath(root, e)};
            && Garbage(root, before, {d}) == {e} && SweptTo(root, before, [e], 1, mid)
            && Completed(root, mid, mid, {d}) && BlobPath(root, e) in mid
  {
    hide *;
    var before := WithBlob(root, d, e, f);
    var mid := before - {NodePath(root, e)};
    FirstUnlink(root, before, e);
    WithBlobIs(root, d, e, f);
    ChildlessStore(root, before, {d, e});
    ChildlessLive(root, before, {d, e}, d);
    ChildlessStore(root, mid, {d});
    ChildlessLive(root, mid, {d}, d);
    GarbageIs(root, before, d, {d, e});
    GarbageIs(root, mid, d, {d});
    assert {d} - {d} == {};
    assert {d, e} - {d} == {e};
    NothingToDelete(root, mid, {d});
  }

  lemma FirstUnlink(root: Path, before: Files, e: Digest)
    ensures SweptTo(root, before, [e], 1, before - {NodePath(root, e)})
  {
    DoomedAt(root, [e], 0);
    hide NodePath, Doomed;
    assert Doomed(root, [e])[..1] == [NodePath(root, e)];
    assert ToSet([NodePath(root, e)]) == {NodePath(root, e)};
  }

  lemma GarbageIs(root: Path, files: Files, d: Digest, listed: set<Digest>)
    requires ListedDigests(root, files) == listed && LiveNodes(root, files, {d}) == {d}
    ensures Garbage(root, files, {d}) == listed - {d}
  {
  }

  lemma NothingToDelete(root: Path, files: Files, roots: set<Digest>)
    requires Garbage(root, files, roots) == {}
    ensures Completed(root, files, files, roots)
  {
    hide Garbage;
  }

  lemma WithBlobIs(root: Path, d: Digest, e: Digest, f: File)
    requires d != e
    ensures var before := WithBlob(root, d, e, f);
            var mid := before - {NodePath(root, e)};
            Childless(root, before, {d, e}) && Childless(root, mid, {d}) && BlobPath(root, e) in mid
  {
    hide NodePath, BlobPath;
    PathsInjective(root, d, e);
    PathsInjective(root, e, e);
    var before := WithBlob(root, d, e, f);
    forall p | p in before
      ensures exists x :: (x in {d, e} && p == NodePath(root, x)) || p == BlobPath(root, x)
      ensures p != NodePath(root, e) ==> exists x :: (x in {d} && p == NodePath(root, x)) || p == BlobPath(root, x)
    {
      assert p == NodePath(root, d) || p == NodePath(root, e) || p == BlobPath(root, e);
    }
  }

  /** A node put while a sweep is about to unlink its child: at the end the parent is stored and its
      child is not. */
  lemma ParentLosesChild(root: Path, child: Digest, parent: Digest, f: File)
    requires child != parent
    ensures var put := File(1, Some([child]));
            var events := [Put(NodePath(root, parent), put), Unlink, Unlink];
            var end := ConcurrentSweep.Run(Doomed(root, [child]), State(map[NodePath(root, child) := f], 0), events);
            && end.done == 2
            && NodePath(root, parent) in end.files && end.files[NodePath(root, parent)] == put
            && NodePath(root, child) !in end.files
  {
    var put := File(1, Some([child]));
    var events, doomed := [Put(NodePath(root, parent), put), Unlink, Unlink], Doomed(root, [child]);
    var s := State(map[NodePath(root, child) := f], 0);
    PathsInjective(root, child, parent);
    PathsInjective(root, parent, child);
    DoomedAt(root, [child], 0);
    hide NodePath, BlobPath, Doomed;
    ThreeEvents(doomed, s, events[0], events[1], events[2]);
  }

  lemma ThreeEvents(doomed: seq<Path>, s: State, a: Event, b: Event, c: Event)
    ensures ConcurrentSweep.Run(doomed, s, [a, b, c]) == Apply(doomed, Apply(doomed, Apply(doomed, s, a), b), c)
  {
    hide Apply;
    assert [a, b, c][..2] == [a, b] && [a, b][..1] == [a] && [a][..0] == [];
    assert ConcurrentSweep.Run(doomed, s, [a]) == Apply(doomed, s, a);
    assert ConcurrentSweep.Run(doomed, s, [a, b]) == Apply(doomed, ConcurrentSweep.Run(doomed, s, [a]), b);
  }
}
