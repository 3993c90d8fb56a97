/** What a garbage collection does to the files of a store, stated on values: which files are
garbage, what an interrupted and a completed collection leave, and how collections compose. */
module Collection {
  import opened Graph
  import opened StoreLayout
  import opened StoreFiles

  /** The digests an enumeration of the store lists. */
  ghost function ListedDigests(root: Path, files: Files): set<Digest> {
    set p | p in files && IsListed(root, p) :: DigestFromPath(p).value
  }

  ghost function LiveNodes(root: Path, files: Files, roots: set<Digest>): set<Digest> {
    Live(Dag(root, files), roots)
  }

  ghost function Garbage(root: Path, files: Files, roots: set<Digest>): set<Digest> {
    ListedDigests(root, files) - LiveNodes(root, files, roots)
  }

  ghost predicate IsFileOf(root: Path, p: Path, digests: set<Digest>) {
    (IsNodePath(root, p) || IsBlobPath(root, p)) && DigestFromPath(p).value in digests
  }

  /** p is an operation lock file. */
  predicate IsLockPath(root: Path, p: Path) {
    |p| == |root| + 2 && p[..|root|] == root && p[|root|] == "ops"
  }

  /** A collection that may have stopped anywhere: from `before` it removed some lock files and some
      node and blob files of garbage digests, and touched nothing else. */
  ghost predicate Interrupted(root: Path, before: Files, after: Files, roots: set<Digest>) {
    && SubFiles(after, before)
    && forall p :: p in before && p !in after ==>
         IsLockPath(root, p) || IsFileOf(root, p, Garbage(root, before, roots))
  }

  /** A collection that ran to the end: no file of a garbage digest is left. */
  ghost predicate Completed(root: Path, before: Files, after: Files, roots: set<Digest>) {
    && Interrupted(root, before, after, roots)
    && forall p :: p in after ==> !IsFileOf(root, p, Garbage(root, before, roots))
  }

  /** The lock files are the files directly in the directory ops of the store. */
  lemma LockPathIff(root: Path, p: Path)
    ensures IsLockPath(root, p) <==> exists name :: p == root + ["ops", name]
  {
    if IsLockPath(root, p) {
      assert p == root + ["ops", p[|root| + 1]];
    }
  }

  lemma LockIsNoNodeFile(root: Path, p: Path, d: Digest)
    requires IsLockPath(root, p)
    ensures p != NodePath(root, d) && p != BlobPath(root, d)
  {
    assert |NodePath(root, d)| == |root| + 4 && |BlobPath(root, d)| == |root| + 4;
  }

  /** Removing lock files changes no node: not what is stored, listed, readable or reached. */
  lemma LocksAreNoNodes(root: Path, files: Files, locks: set<Path>)
    requires forall p :: p in locks ==> IsLockPath(root, p)
    ensures Dag(root, files - locks) == Dag(root, files)
    ensures Stored(root, files - locks) == Stored(root, files)
    ensures Readable(root, files - locks) == Readable(root, files)
    ensures ListedDigests(root, files - locks) == ListedDigests(root, files)
  {
    forall d: Digest ensures RepresentsSame(root, files - locks, files, d) {
      if NodePath(root, d) in locks { LockIsNoNodeFile(root, NodePath(root, d), d); }
      DagLookup(root, files, d);
      DagLookup(root, files - locks, d);
    }
    assert Dag(root, files - locks).Keys == Dag(root, files).Keys;
    assert Dag(root, files - locks).Keys == Stored(root, files - locks) && Dag(root, files).Keys == Stored(root, files);
    forall p | p in locks ensures !IsListed(root, p) {
      if IsListed(root, p) { assert SkippedDir(p[|root|]); assert false; }
    }
  }

  ghost predicate RepresentsSame(root: Path, small: Files, files: Files, d: Digest) {
    && (d in Dag(root, small) <==> d in Dag(root, files))
    && (d in Dag(root, small) && d in Dag(root, files) ==> Dag(root, small)[d] == Dag(root, files)[d])
    && (d in Readable(root, small) <==> d in Readable(root, files))
  }

  lemma FileOfDigest(root: Path, d: Digest, digests: set<Digest>)
    ensures IsFileOf(root, NodePath(root, d), digests) <==> d in digests
    ensures IsFileOf(root, BlobPath(root, d), digests) <==> d in digests
  {
    PathRoundTrip(root, d);
  }

  lemma StoredAreListed(root: Path, files: Files)
    ensures Stored(root, files) <= ListedDigests(root, files)
  {
    forall d | d in Stored(root, files) ensures d in ListedDigests(root, files) {
      StoredMeansNodeFile(root, files, d);
      NodePathIsListed(root, d);
      PathRoundTrip(root, d);
    }
  }

  /** Crash safety: wherever a collection stopped, every live node is still stored with its
      archive, hence its edges, unchanged, and the same digests are live. */
  lemma LiveSurvives(root: Path, before: Files, after: Files, roots: set<Digest>)
    requires Interrupted(root, before, after, roots)
    ensures forall d :: d in LiveNodes(root, before, roots) ==>
              && NodePath(root, d) in before && NodePath(root, d) in after
              && after[NodePath(root, d)] == before[NodePath(root, d)]
    ensures LiveNodes(root, after, roots) == LiveNodes(root, before, roots)
  {
    LiveStaysStored(root, before, after, roots);
    SmallerRootsSurvive(root, before, after, roots, roots);
  }

  lemma LiveStaysStored(root: Path, before: Files, after: Files, roots: set<Digest>)
    requires Interrupted(root, before, after, roots)
    ensures forall d :: d in LiveNodes(root, before, roots) ==>
              NodePath(root, d) in before && NodePath(root, d) in after
  {
    forall d | d in LiveNodes(root, before, roots)
      ensures NodePath(root, d) in before && NodePath(root, d) in after
    {
      StoredMeansNodeFile(root, before, d);
      FileOfDigest(root, d, Garbage(root, before, roots));
      if IsLockPath(root, NodePath(root, d)) { LockIsNoNodeFile(root, NodePath(root, d), d); }
    }
  }

  /** A collection for some roots does not change what any smaller root set reaches. */
  lemma SmallerRootsSurvive(root: Path, before: Files, after: Files, roots: set<Digest>, fewer: set<Digest>)
    requires Interrupted(root, before, after, roots) && fewer <= roots
    ensures LiveNodes(root, after, fewer) == LiveNodes(root, before, fewer)
  {
    DagOfSubFiles(root, after, before);
    LiveStaysStored(root, before, after, roots);
    forall d | d in LiveNodes(root, before, roots) ensures d in Dag(root, after).Keys {
      DagLookup(root, after, d);
    }
    LiveStable(Dag(root, before), Dag(root, after), fewer, roots);
  }

  /** Exact collection: a completed run leaves exactly the live nodes stored. */
  lemma CompletedIsExact(root: Path, before: Files, after: Files, roots: set<Digest>)
    requires Completed(root, before, after, roots)
    ensures Stored(root, after) == LiveNodes(root, before, roots)
  {
    LiveStaysStored(root, before, after, roots);
    forall d ensures d in Stored(root, after) <==> d in LiveNodes(root, before, roots) {
      StoredMeansNodeFile(root, after, d);
      if d in Stored(root, after) && d !in LiveNodes(root, before, roots) {
        StoredMeansNodeFile(root, before, d);
        StoredAreListed(root, before);
        FileOfDigest(root, d, Garbage(root, before, roots));
        assert false;
      }
    }
  }

  /** One finished or interrupted collection in a history of the store. */
  datatype Run = Run(roots: set<Digest>, files: Files)

  /** A history leading from the files `start` to the files `end`: runs that follow each other,
      each with root sets of its own that contain the roots `kept`. */
  ghost predicate History(root: Path, start: Files, runs: seq<Run>, end: Files, kept: set<Digest>) {
    if runs == [] then start == end
    else
      && kept <= runs[0].roots
      && Interrupted(root, start, runs[0].files, runs[0].roots)
      && History(root, runs[0].files, runs[1..], end, kept)
  }

  lemma {:induction false} HistoryKeepsLive(
    root: Path, start: Files, runs: seq<Run>, end: Files, kept: set<Digest>)
    requires History(root, start, runs, end, kept)
    ensures LiveNodes(root, end, kept) == LiveNodes(root, start, kept)
  {
    if runs != [] {
      SmallerRootsSurvive(root, start, runs[0].files, runs[0].roots, kept);
      HistoryKeepsLive(root, runs[0].files, runs[1..], end, kept);
    }
  }

  /** Resumption and composition: however many runs with at least the roots `kept` came before, and
      wherever each of them stopped, a run with exactly those roots that completes leaves exactly
      what they reach in the store as it was at the start - the nodes it leaves when run alone. */
  lemma HistoryIsExact(root: Path, start: Files, runs: seq<Run>, end: Files, kept: set<Digest>,
                       last: Files, alone: Files)
    requires History(root, start, runs, end, kept)
    requires Completed(root, end, last, kept)
    requires Completed(root, start, alone, kept)
    ensures Stored(root, last) == LiveNodes(root, start, kept) == Stored(root, alone)
  {
    HistoryKeepsLive(root, start, runs, end, kept);
    CompletedIsExact(root, end, last, kept);
    CompletedIsExact(root, start, alone, kept);
  }

  /** Repeating a completed collection with the same roots deletes nothing but stale locks: no node,
      no blob, no other file. */
  lemma SecondRunDeletesNothing(root: Path, before: Files, once: Files, twice: Files, roots: set<Digest>)
    requires Completed(root, before, once, roots) && Interrupted(root, once, twice, roots)
    ensures forall p :: p in once && p !in twice ==> IsLockPath(root, p)
    ensures Stored(root, twice) == Stored(root, once) == LiveNodes(root, before, roots)
    ensures StoredBlobs(root, twice) == StoredBlobs(root, once)
  {
    hide NodePath, BlobPath, IsListed, DigestFromPath, IsLockPath, LiveNodes;
    GarbageShrinks(root, before, once, roots);
    assert forall p :: IsFileOf(root, p, Garbage(root, once, roots)) ==>
      IsFileOf(root, p, Garbage(root, before, roots));
    CompletedIsExact(root, before, once, roots);
    forall d
      ensures d in Stored(root, twice) <==> d in Stored(root, once)
      ensures d in StoredBlobs(root, twice) <==> d in StoredBlobs(root, once)
    {
      StoredMeansNodeFile(root, once, d);
      StoredMeansNodeFile(root, twice, d);
      NotLocks(root, d);
    }
  }

  lemma NotLocks(root: Path, d: Digest)
    ensures !IsLockPath(root, NodePath(root, d)) && !IsLockPath(root, BlobPath(root, d))
  {
    if IsLockPath(root, NodePath(root, d)) { LockIsNoNodeFile(root, NodePath(root, d), d); }
    if IsLockPath(root, BlobPath(root, d)) { LockIsNoNodeFile(root, BlobPath(root, d), d); }
  }

  lemma GarbageShrinks(root: Path, before: Files, after: Files, roots: set<Digest>)
    requires Interrupted(root, before, after, roots)
    ensures Garbage(root, after, roots) <= Garbage(root, before, roots)
  {
    hide NodePath, BlobPath, IsListed, DigestFromPath, IsLockPath, LiveNodes;
    LiveSurvives(root, before, after, roots);
    assert ListedDigests(root, after) <= ListedDigests(root, before);
  }
}
