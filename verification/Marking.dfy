/** What marking yields and what the report of a collection counts: the unreachable part of a
listing and the files it stands for. */
module Marking {
  import opened Wrappers
  import opened StoreLayout
  import opened StoreFiles
  import opened Collection
  import opened Enumeration

  /** The digests of the listing that were not marked, in listing order. */
  function Unreachable(all: seq<Digest>, reachable: set<Digest>): seq<Digest> {
    if all == [] then []
    else
      var n := |all| - 1;
      Unreachable(all[..n], reachable) + if all[n] in reachable then [] else [all[n]]
  }

  /** The node files an enumeration lists. */
  ghost function ListedFiles(root: Path, files: Files): set<Path> {
    set p | p in files && IsListed(root, p)
  }

  /** The listed files that stand for a digest outside the live set. */
  ghost function UnreachableFiles(root: Path, files: Files, live: set<Digest>): set<Path> {
    set p | p in files && IsListed(root, p) && DigestFromPath(p).value !in live
  }

  lemma {:induction false} UnreachableSet(all: seq<Digest>, reachable: set<Digest>)
    ensures ToSet(Unreachable(all, reachable)) == ToSet(all) - reachable
  {
    if all != [] {
      var n := |all| - 1;
      UnreachableSet(all[..n], reachable);
      assert all == all[..n] + [all[n]];
      assert ToSet(all) == ToSet(all[..n]) + {all[n]};
      var kept := Unreachable(all[..n], reachable);
      if all[n] in reachable {
        assert Unreachable(all, reachable) == kept;
      } else {
        assert Unreachable(all, reachable) == kept + [all[n]];
        assert ToSet(kept + [all[n]]) == ToSet(kept) + {all[n]};
      }
    }
  }

  /** In a tidy store no digest is on the unreachable list twice. */
  lemma TidyListsOnce(root: Path, files: Files, paths: seq<Path>, all: seq<Digest>, live: set<Digest>)
    requires NoDuplicates(paths) && Decodes([], paths, all) && Tidy(root, files)
    requires forall p :: p in paths <==> p in files && IsListed(root, p)
    ensures NoDuplicates(Unreachable(all, live))
  {
    hide NodePath, IsListed, DigestFromPath, Tidy, Unreachable;
    TidyListingIsExact(root, files, paths, all);
    UnreachableOnce(all, live);
  }

  lemma {:induction false} UnreachableOnce(all: seq<Digest>, reachable: set<Digest>)
    requires NoDuplicates(all)
    ensures NoDuplicates(Unreachable(all, reachable))
  {
    if all != [] {
      var n := |all| - 1;
      UnreachableOnce(all[..n], reachable);
      UnreachableSet(all[..n], reachable);
      var kept := Unreachable(all[..n], reachable);
      assert all[n] !in all[..n];
      assert all[n] !in ToSet(kept);
      assert Unreachable(all, reachable) == if all[n] in reachable then kept else kept + [all[n]];
    }
  }

  ghost function PathsOutside(paths: seq<Path>, live: set<Digest>): set<Path> {
    set p | p in paths && DigestFromPath(p).Some? && DigestFromPath(p).value !in live
  }

  lemma {:induction false} UnreachableCount(paths: seq<Path>, all: seq<Digest>, live: set<Digest>)
    requires NoDuplicates(paths) && Decodes([], paths, all)
    ensures |Unreachable(all, live)| == |PathsOutside(paths, live)|
  {
    if paths != [] {
      var n := |paths| - 1;
      assert paths == paths[..n] + [paths[n]];
      UnreachableCount(paths[..n], all[..n], live);
      assert paths[n] !in paths[..n];
      if all[n] in live {
        assert PathsOutside(paths, live) == PathsOutside(paths[..n], live);
      } else {
        assert PathsOutside(paths, live) == PathsOutside(paths[..n], live) + {paths[n]};
      }
    }
  }

  /** From a listing of exactly the listed files: the unreachable list stands for the garbage, and
      its length and the length of the listing count files. */
  lemma ListingCounts(root: Path, files: Files, paths: seq<Path>, all: seq<Digest>, live: set<Digest>)
    requires NoDuplicates(paths) && Decodes([], paths, all)
    requires forall p :: p in paths <==> p in files && IsListed(root, p)
    ensures ToSet(all) == ListedDigests(root, files)
    ensures ToSet(Unreachable(all, live)) == ListedDigests(root, files) - live
    ensures |all| == |ListedFiles(root, files)|
    ensures |Unreachable(all, live)| == |UnreachableFiles(root, files, live)|
    ensures PathsOutside(paths, live) == UnreachableFiles(root, files, live)
  {
    NoDuplicatesCardinality(paths);
    assert ToSet(paths) == ListedFiles(root, files);
    UnreachableCount(paths, all, live);
    assert PathsOutside(paths, live) == UnreachableFiles(root, files, live);
    UnreachableSet(all, live);
    forall d ensures d in ToSet(all) <==> d in ListedDigests(root, files) {
      if d in all {
        var i :| 0 <= i < |all| && all[i] == d;
        assert paths[i] in paths;
      }
      if d in ListedDigests(root, files) {
        var p :| p in files && IsListed(root, p) && DigestFromPath(p).value == d;
        var i :| 0 <= i < |paths| && paths[i] == p;
        assert all[i] == d;
      }
    }
  }

  /** No visible node file outside its own path decodes to a live digest. */
  ghost predicate NoStrayCopy(root: Path, files: Files, live: set<Digest>) {
    forall p :: p in files && IsListed(root, p) && DigestFromPath(p).value in live ==> IsNodePath(root, p)
  }

  /** Conservation of the report: the listed files are the live nodes plus the unreachable files if
      and only if no stray copy of a live node is visible to the enumeration. */
  lemma CountsAddUpIffNoStrayCopy(root: Path, files: Files, live: set<Digest>)
    requires live <= Stored(root, files)
    ensures |ListedFiles(root, files)| == |live| + |UnreachableFiles(root, files, live)| <==>
            NoStrayCopy(root, files, live)
  {
    ListedSplit(root, files, live);
    NodePathsCardinality(root, live);
    ProperAreMarked(root, files, live);
    StrayCopyIffNotProper(root, files, live);
    SubsetSize(NodePaths(root, live), MarkedFiles(root, files, live));
  }

  lemma ListedSplit(root: Path, files: Files, live: set<Digest>)
    ensures |ListedFiles(root, files)| == |MarkedFiles(root, files, live)| + |UnreachableFiles(root, files, live)|
  {
    assert ListedFiles(root, files) == MarkedFiles(root, files, live) + UnreachableFiles(root, files, live);
    assert MarkedFiles(root, files, live) !! UnreachableFiles(root, files, live);
  }

  ghost function NodePaths(root: Path, digests: set<Digest>): set<Path> {
    set d | d in digests :: NodePath(root, d)
  }

  ghost function MarkedFiles(root: Path, files: Files, live: set<Digest>): set<Path> {
    set p | p in files && IsListed(root, p) && DigestFromPath(p).value in live
  }

  lemma ProperAreMarked(root: Path, files: Files, live: set<Digest>)
    requires live <= Stored(root, files)
    ensures NodePaths(root, live) <= MarkedFiles(root, files, live)
  {
    forall d | d in live ensures NodePath(root, d) in MarkedFiles(root, files, live) {
      StoredMeansNodeFile(root, files, d);
      NodePathIsListed(root, d);
      PathRoundTrip(root, d);
    }
  }

  lemma StrayCopyIffNotProper(root: Path, files: Files, live: set<Digest>)
    ensures NoStrayCopy(root, files, live) <==> MarkedFiles(root, files, live) <= NodePaths(root, live)
  {
    forall p | p in NodePaths(root, live) ensures IsNodePath(root, p) {
      var d :| d in live && p == NodePath(root, d);
      PathRoundTrip(root, d);
    }
  }

  lemma {:induction false} NodePathsCardinality(root: Path, digests: set<Digest>)
    ensures |NodePaths(root, digests)| == |digests|
  {
    if digests != {} {
      var d :| d in digests;
      NodePathsCardinality(root, digests - {d});
      assert NodePaths(root, digests) == NodePaths(root, digests - {d}) + {NodePath(root, d)};
      forall e | e in digests - {d} ensures NodePath(root, e) != NodePath(root, d) {
        PathsInjective(root, e, d);
      }
    }
  }

  lemma LocksAreNotListed(root: Path, files: Files, locks: set<Path>, live: set<Digest>)
    requires forall p :: p in locks ==> IsLockPath(root, p)
    ensures ListedFiles(root, files - locks) == ListedFiles(root, files)
    ensures UnreachableFiles(root, files - locks, live) == UnreachableFiles(root, files, live)
  {
    forall p | p in locks ensures !IsListed(root, p) {
      if IsListed(root, p) { assert SkippedDir(p[|root|]); assert false; }
    }
  }
}
