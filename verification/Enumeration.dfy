/** The recursive directory walk that lists the node files below the store root. */
module Enumeration {
  import opened Wrappers
  import opened StoreLayout
  import opened StoreFiles

  function Children(files: Files, dirs: set<Path>, dir: Path): set<Path> {
    set p | p in files.Keys + dirs && Under(dir, p) && |p| == |dir| + 1
  }

  /** The entry of dir through which the path p leaves dir. */
  function Branch(dir: Path, p: Path): Path
    requires Under(dir, p)
  {
    p[..|dir| + 1]
  }

  /** paths holds, once each, the listed files below dir whose branch is among done. */
  ghost predicate ListsBranches(files: Files, dir: Path, done: set<Path>, paths: seq<Path>) {
    && NoDuplicates(paths)
    && forall p :: p in paths <==> p in files && IsListed(dir, p) && Branch(dir, p) in done
  }

  /** digests is `start` followed by the digests the paths decode to. */
  ghost predicate Decodes(start: seq<Digest>, paths: seq<Path>, digests: seq<Digest>) {
    && |digests| == |start| + |paths|
    && digests[..|start|] == start
    && forall i :: 0 <= i < |paths| ==> DigestFromPath(paths[i]) == Some(digests[|start| + i])
  }

  /** more holds, once each, the listed files below dir whose branch is sub. */
  ghost predicate ListsBranch(files: Files, dir: Path, sub: Path, more: seq<Path>) {
    && NoDuplicates(more)
    && forall p :: p in more <==> p in files && IsListed(dir, p) && Branch(dir, p) == sub
  }

  /** What is listed below a subdirectory is what is listed below dir through that branch, unless
      the walk skips the subdirectory. */
  lemma ListedThroughBranch(dir: Path, sub: Path, p: Path)
    requires Under(dir, sub) && |sub| == |dir| + 1 && p != sub
    ensures IsListed(dir, p) && Branch(dir, p) == sub <==> IsListed(sub, p) && !SkippedDir(FileName(sub))
  {
    if Under(sub, p) {
      assert p[..|dir|] == p[..|sub|][..|dir|];
      assert p[|dir|] == p[..|sub|][|dir|] == FileName(sub);
    }
    if Under(dir, p) && Branch(dir, p) == sub {
      assert p[|dir|] == sub[|dir|];
    }
  }

  lemma DirBranch(root: Path, files: Files, dirs: set<Path>, dir: Path, sub: Path, more: seq<Path>)
    requires WellFormed(root, files, dirs) && sub in dirs && Under(dir, sub) && |sub| == |dir| + 1
    requires NoDuplicates(more)
    requires forall p :: p in more <==> p in files && IsListed(sub, p) && !SkippedDir(FileName(sub))
    ensures ListsBranch(files, dir, sub, more)
  {
    forall p | p in files ensures p in more <==> IsListed(dir, p) && Branch(dir, p) == sub {
      ListedThroughBranch(dir, sub, p);
    }
  }

  lemma FileBranch(root: Path, files: Files, dirs: set<Path>, dir: Path, path: Path, more: seq<Path>)
    requires WellFormed(root, files, dirs) && path in files && Under(dir, path) && |path| == |dir| + 1
    requires more == if FileName(path) == NODE_FILE && DigestFromPath(path).Some? then [path] else []
    ensures ListsBranch(files, dir, path, more)
  {
    forall p | p in files && p != path ensures !(IsListed(dir, p) && Branch(dir, p) == path) {
      if IsListed(dir, p) && Branch(dir, p) == path {
        AncestorsAreDirs(root, files, dirs, p, |path|);
        assert false;
      }
    }
    assert Branch(dir, path) == path;
  }

  lemma AppendBranch(files: Files, dir: Path, done: set<Path>, sub: Path, paths: seq<Path>, more: seq<Path>)
    requires ListsBranches(files, dir, done, paths) && sub !in done
    requires ListsBranch(files, dir, sub, more)
    ensures ListsBranches(files, dir, done + {sub}, paths + more)
  {
    forall i, j | 0 <= i < j < |paths + more| ensures (paths + more)[i] != (paths + more)[j] {
      if i < |paths| <= j {
        assert paths[i] in paths && more[j - |paths|] in more;
      }
    }
  }

  lemma NothingListed(files: Files, dir: Path, digests: seq<Digest>)
    ensures ListsBranches(files, dir, {}, []) && Decodes(digests, [], digests)
  {
  }

  lemma DecodesAppend(start: seq<Digest>, paths: seq<Path>, mid: seq<Digest>, more: seq<Path>, end: seq<Digest>)
    requires Decodes(start, paths, mid) && Decodes(mid, more, end)
    ensures Decodes(start, paths + more, end)
  {
    assert end[..|start|] == end[..|mid|][..|start|];
    forall i | 0 <= i < |paths + more|
      ensures DigestFromPath((paths + more)[i]) == Some(end[|start| + i])
    {
      if i < |paths| {
        assert end[|start| + i] == end[..|mid|][|start| + i];
      } else {
        assert more[i - |paths|] == (paths + more)[i];
      }
    }
  }

  ghost function Below(dirs: set<Path>, dir: Path): set<Path> {
    set d | d in dirs && Under(dir, d)
  }

  lemma BelowSubdir(dirs: set<Path>, dir: Path, sub: Path)
    requires sub in dirs && Under(dir, sub)
    ensures Below(dirs, sub) < Below(dirs, dir)
  {
    forall d | d in Below(dirs, sub) ensures d in Below(dirs, dir) {
      assert d[..|dir|] == d[..|sub|][..|dir|];
    }
    assert sub in Below(dirs, dir) && sub !in Below(dirs, sub);
  }

  /** When every entry has been processed, every listed file has been listed. */
  lemma AllBranches(root: Path, files: Files, dirs: set<Path>, dir: Path, paths: seq<Path>)
    requires WellFormed(root, files, dirs) && dir in dirs
    requires ListsBranches(files, dir, Children(files, dirs, dir), paths)
    ensures NoDuplicates(paths) && forall p :: p in paths <==> p in files && IsListed(dir, p)
  {
    forall p | p in files && IsListed(dir, p) ensures p in paths {
      assert dir == root || Under(root, dir);
      if |p| > |dir| + 1 {
        AncestorsAreDirs(root, files, dirs, p, |dir| + 1);
        assert Branch(dir, p)[..|dir|] == p[..|dir|];
      } else {
        assert Branch(dir, p) == p;
      }
    }
  }

  /** Appends to `digests` the digest of every listed node file below dir, each file once, whatever
      the order in which directories are read. */
  method WalkStoreDir(ghost root: Path, files: Files, dirs: set<Path>, dir: Path, digests: seq<Digest>)
    returns (found: seq<Digest>, ghost paths: seq<Path>)
    requires WellFormed(root, files, dirs) && dir in dirs
    ensures NoDuplicates(paths) && forall p :: p in paths <==> p in files && IsListed(dir, p)
    ensures Decodes(digests, paths, found)
    decreases Below(dirs, dir), 1
  {
    hide *;
    var entries := Children(files, dirs, dir);
    found, paths := digests, [];
    ghost var done: set<Path> := {};
    NothingListed(files, dir, digests);
    while entries != {}
      invariant entries + done == Children(files, dirs, dir) && entries !! done
      invariant ListsBranches(files, dir, done, paths)
      invariant Decodes(digests, paths, found)
      decreases |entries|
    {
      var path :| path in entries;
      entries := entries - {path};
      ghost var before, more := found, [];
      found, more := WalkEntry(root, files, dirs, dir, path, found);
      AppendBranch(files, dir, done, path, paths, more);
      DecodesAppend(digests, paths, before, more, found);
      paths, done := paths + more, done + {path};
    }
    assert done == Children(files, dirs, dir);
    AllBranches(root, files, dirs, dir, paths);
  }

  /** One entry of the directory listing: a subdirectory to enter or skip, a node file to decode,
      or a file of no interest. */
  method WalkEntry(ghost root: Path, files: Files, dirs: set<Path>, dir: Path, path: Path, digests: seq<Digest>)
    returns (found: seq<Digest>, ghost more: seq<Path>)
    requires WellFormed(root, files, dirs) && path in Children(files, dirs, dir)
    ensures ListsBranch(files, dir, path, more)
    ensures Decodes(digests, more, found)
    decreases Below(dirs, dir), 0
  {
    found, more := digests, [];
    if path in dirs {
      if !SkippedDir(FileName(path)) {
        BelowSubdir(dirs, dir, path);
        found, more := WalkStoreDir(root, files, dirs, path, digests);
      }
      DirBranch(root, files, dirs, dir, path, more);
    } else {
      if FileName(path) == NODE_FILE {
        match DigestFromPath(path)
        case Some(digest) => found, more := digests + [digest], [path];
        case None =>
      }
      FileBranch(root, files, dirs, dir, path, more);
    }
  }
}
