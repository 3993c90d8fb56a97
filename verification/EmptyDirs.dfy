/** Removing the directories that a sweep leaves empty. */
module EmptyDirs {
  import opened StoreLayout
  import opened StoreFiles
  import opened Enumeration

  /** Of the directories above path with more than n components, those that are empty are there only
      because the file system refuses to remove them. */
  ghost predicate CleanBelow(files: Files, dirs: set<Path>, denied: set<Path>, path: Path, n: nat) {
    forall m :: n < m < |path| && path[..m] in dirs ==> Children(files, dirs, path[..m]) != {} || path[..m] in denied
  }

  /** The same of all directories strictly between root and path. */
  ghost predicate NoEmptyAncestor(root: Path, files: Files, dirs: set<Path>, denied: set<Path>, path: Path) {
    CleanBelow(files, dirs, denied, path, |root|)
  }

  /** The loop of clean_empty_dirs: dir is path cut to n components. */
  method CleanUpwards(root: Path, files: Files, dirs: set<Path>, denied: set<Path>, path: Path)
    returns (left: set<Path>)
    requires WellFormed(root, files, dirs) && Under(root, path)
    ensures WellFormed(root, files, left) && left <= dirs
    ensures forall d :: d in dirs - left ==> Under(d, path) && d !in denied
    ensures Parent(path) !in dirs ==> left == dirs
    ensures Parent(path) in dirs ==> NoEmptyAncestor(root, files, left, denied, path)
  {
    hide WellFormed, Children, CleanBelow;
    var n := |path| - 1;
    left := dirs;
    NothingBelow(files, left, denied, path);
    while n > |root|
      invariant |root| <= n < |path| && WellFormed(root, files, left) && left <= dirs
      invariant forall d :: d in dirs - left ==> Under(d, path) && d !in denied
      invariant Parent(path) !in dirs ==> left == dirs && n == |path| - 1
      invariant Parent(path) in dirs ==> path[..n] in left
      invariant CleanBelow(files, left, denied, path, n)
    {
      var dir := path[..n];
      if dir !in left || Children(files, left, dir) != {} {
        if dir in left { NonEmptyUpwards(root, files, left, denied, path, n); }
        return;
      }
      ParentExists(root, files, left, path, n);
      if dir !in denied {
        RemoveEmptyDir(root, files, left, dir);
        RemovedBelow(files, left, denied, path, n);
        left := left - {dir};
      } else {
        DeniedBelow(files, left, denied, path, n);
      }
      n := n - 1;
    }
  }

  lemma NothingBelow(files: Files, dirs: set<Path>, denied: set<Path>, path: Path)
    requires path != []
    ensures CleanBelow(files, dirs, denied, path, |path| - 1)
  {
  }

  lemma ParentExists(root: Path, files: Files, dirs: set<Path>, path: Path, n: nat)
    requires WellFormed(root, files, dirs) && Under(root, path) && |root| < n < |path| && path[..n] in dirs
    ensures path[..n - 1] in dirs && path[..n - 1] != path[..n] && path[..n] != root
  {
    assert Parent(path[..n]) == path[..n - 1];
  }

  lemma RemovedBelow(files: Files, dirs: set<Path>, denied: set<Path>, path: Path, n: nat)
    requires 0 < n < |path| && CleanBelow(files, dirs, denied, path, n)
    ensures CleanBelow(files, dirs - {path[..n]}, denied, path, n - 1)
  {
    var left := dirs - {path[..n]};
    forall m | n < m < |path| && path[..m] in left
      ensures Children(files, left, path[..m]) == Children(files, dirs, path[..m])
    {
      assert |path[..n]| < |path[..m]|;
    }
  }

  lemma DeniedBelow(files: Files, dirs: set<Path>, denied: set<Path>, path: Path, n: nat)
    requires 0 < n < |path| && CleanBelow(files, dirs, denied, path, n) && path[..n] in denied
    ensures CleanBelow(files, dirs, denied, path, n - 1)
  {
  }

  lemma NonEmptyUpwards(root: Path, files: Files, dirs: set<Path>, denied: set<Path>, path: Path, k: nat)
    requires WellFormed(root, files, dirs) && Under(root, path) && |root| < k < |path| && path[..k] in dirs
    requires Children(files, dirs, path[..k]) != {} && CleanBelow(files, dirs, denied, path, k)
    ensures NoEmptyAncestor(root, files, dirs, denied, path)
  {
    forall n | |root| < n < k ensures Children(files, dirs, path[..n]) != {} {
      var child := path[..n + 1];
      if n + 1 < k {
        AncestorsAreDirs(root, files, dirs, path[..k], n + 1);
        assert path[..k][..n + 1] == child;
      }
      assert child[..n] == path[..n];
      assert child in Children(files, dirs, path[..n]);
    }
  }

  lemma RemoveEmptyDir(root: Path, files: Files, dirs: set<Path>, dir: Path)
    requires WellFormed(root, files, dirs) && dir in dirs && dir != root
    requires Children(files, dirs, dir) == {}
    ensures WellFormed(root, files, dirs - {dir})
  {
    forall p | p in files.Keys + dirs && p != root ensures Parent(p) in dirs - {dir} {
      assert Parent(p) == dir ==> p in Children(files, dirs, dir);
    }
  }

  /** Deleting the files of one digest and cleaning up above them leaves no empty directory above
      another digest's node file. */
  lemma OthersStayClean(root: Path, files: Files, dirs: set<Path>, files': Files, dirs': set<Path>, denied: set<Path>,
                        d: Digest, e: Digest)
    requires files' == files - {NodePath(root, d)} - {BlobPath(root, d)} && dirs' <= dirs
    requires forall x :: x in dirs - dirs' ==> Under(x, NodePath(root, d))
    requires NoEmptyAncestor(root, files', dirs', denied, NodePath(root, d))
    requires NoEmptyAncestor(root, files, dirs, denied, NodePath(root, e))
    ensures NoEmptyAncestor(root, files', dirs', denied, NodePath(root, e))
  {
    var p, q := NodePath(root, d), NodePath(root, e);
    Siblings(root, d);
    Siblings(root, e);
    hide NodePath, BlobPath;
    forall n | |root| < n < |q| && q[..n] in dirs'
      ensures Children(files', dirs', q[..n]) != {} || q[..n] in denied
    {
      if q[..n] == p[..n] {
        assert p[..n] in dirs';
      } else {
        SameChildren(root, files, dirs, files', dirs', d, q[..n]);
      }
    }
  }

  lemma Siblings(root: Path, d: Digest)
    ensures |NodePath(root, d)| == |BlobPath(root, d)| == |root| + 4
    ensures Parent(BlobPath(root, d)) == Parent(NodePath(root, d)) && Under(root, NodePath(root, d))
  {
    assert NodePath(root, d)[..|root|] == root;
    assert Parent(BlobPath(root, d)) == ShardDir(root, d) == Parent(NodePath(root, d));
  }

  lemma SameChildren(root: Path, files: Files, dirs: set<Path>, files': Files, dirs': set<Path>, d: Digest, dir: Path)
    requires files' == files - {NodePath(root, d)} - {BlobPath(root, d)} && dirs' <= dirs
    requires forall x :: x in dirs - dirs' ==> Under(x, NodePath(root, d))
    requires |dir| < |root| + 4 && dir != NodePath(root, d)[..|dir|]
    ensures Children(files', dirs', dir) == Children(files, dirs, dir)
  {
    var p := NodePath(root, d);
    Siblings(root, d);
    hide NodePath, BlobPath;
    forall c | c in dirs - dirs' || c in {p, BlobPath(root, d)} ensures !(Under(dir, c) && |c| == |dir| + 1) {
      if Under(dir, c) && |c| == |dir| + 1 {
        OnThePath(p, c, dir);
        assert false;
      }
    }
  }

  lemma OnThePath(p: Path, c: Path, dir: Path)
    requires Under(dir, c) && |c| == |dir| + 1
    requires Under(c, p) || (|c| == |p| && Parent(c) == Parent(p))
    ensures p[..|dir|] == dir
  {
    if Under(c, p) {
      assert p[..|dir|] == p[..|c|][..|dir|];
    } else {
      assert p[..|dir|] == Parent(p) == Parent(c) == c[..|dir|];
    }
  }
}
