/** How far a sweep gets on a file system that refuses some removals, and what it leaves of the
directories. */
module SweepOutcome {
  import opened StoreLayout
  import opened StoreFiles
  import opened Collection
  import opened Sweep
  import opened EmptyDirs

  /** What exists at p cannot be unlinked: it is a directory, or the file system refuses. */
  predicate Stuck(files: Files, dirs: set<Path>, denied: set<Path>, p: Path) {
    p in dirs || (p in files && p in denied)
  }

  /** How many of the two unlink attempts for a digest succeed. */
  ghost function Attempts(root: Path, files: Files, dirs: set<Path>, denied: set<Path>, d: Digest): nat {
    if Stuck(files, dirs, denied, NodePath(root, d)) then 0
    else if Stuck(files, dirs, denied, BlobPath(root, d)) then 1
    else 2
  }

  /** None of the first n unlink attempts of a sweep of the list is stuck. */
  ghost predicate FreeUpTo(root: Path, list: seq<Digest>, n: nat, files: Files, dirs: set<Path>, denied: set<Path>) {
    n <= 2 * |list| && forall k :: 0 <= k < n ==> !Stuck(files, dirs, denied, Doomed(root, list)[k])
  }

  ghost predicate StuckAt(root: Path, list: seq<Digest>, n: nat, files: Files, dirs: set<Path>, denied: set<Path>) {
    n < 2 * |list| && Stuck(files, dirs, denied, Doomed(root, list)[n])
  }

  /** Only directories above node files are gone. */
  ghost predicate ShortDirsGone(root: Path, before: set<Path>, after: set<Path>) {
    after <= before && forall d :: d in before - after ==> |d| < |root| + 4
  }

  /** What a sweep of one digest does to directories: only ones above its node file go, and if it went
      through, none of these is left empty, unless there was nothing to sweep. */
  ghost predicate PrunedAbove(root: Path, files: Files, dirs: set<Path>, files': Files, dirs': set<Path>,
                              denied: set<Path>, d: Digest, ok: bool) {
    && dirs' <= dirs
    && (forall x :: x in dirs - dirs' ==> Under(x, NodePath(root, d)))
    && (ok ==>
          || NoEmptyAncestor(root, files', dirs', denied, NodePath(root, d))
          || (NodePath(root, d) !in files && files' == files && dirs' == dirs))
  }

  /** No directory above a node of the list that was stored before is left empty. */
  ghost predicate Pruned(root: Path, before: Files, list: seq<Digest>, files: Files, dirs: set<Path>,
                         denied: set<Path>)
  {
    forall d :: d in list && NodePath(root, d) in before ==>
                  NoEmptyAncestor(root, files, dirs, denied, NodePath(root, d))
  }

  /** Without the directory of a digest there is no file of it. */
  lemma NoShardNoFiles(root: Path, files: Files, dirs: set<Path>, d: Digest)
    requires WellFormed(root, files, dirs)
    ensures Parent(NodePath(root, d)) !in dirs ==> NodePath(root, d) !in files && BlobPath(root, d) !in files
  {
    Siblings(root, d);
  }

  lemma NothingDone(root: Path, files: Files, dirs: set<Path>, denied: set<Path>, list: seq<Digest>)
    ensures FreeUpTo(root, list, 0, files, dirs, denied) && ShortDirsGone(root, dirs, dirs)
    ensures Pruned(root, files, list[..0], files, dirs, denied)
  {
  }

  lemma AttemptsMean(root: Path, files: Files, dirs: set<Path>, denied: set<Path>, d: Digest)
    ensures Attempts(root, files, dirs, denied, d) <= 2
    ensures Attempts(root, files, dirs, denied, d) == 0 <==> Stuck(files, dirs, denied, NodePath(root, d))
    ensures Attempts(root, files, dirs, denied, d) == 1 <==>
            !Stuck(files, dirs, denied, NodePath(root, d)) && Stuck(files, dirs, denied, BlobPath(root, d))
  {
  }

  /** An attempt is stuck when it is made if and only if it was stuck at the start of the sweep. */
  lemma StuckNow(root: Path, before: Files, dirs: set<Path>, denied: set<Path>, list: seq<Digest>, k: nat,
                 files: Files, now: set<Path>)
    requires SweptTo(root, before, list, k, files) && k < 2 * |list| && ShortDirsGone(root, dirs, now)
    requires FreeUpTo(root, list, k, before, dirs, denied)
    ensures Stuck(files, now, denied, Doomed(root, list)[k]) <==> Stuck(before, dirs, denied, Doomed(root, list)[k])
  {
    DoomedLength(root, list, k);
    hide Doomed, NodePath, BlobPath;
    var p, ps := Doomed(root, list)[k], Doomed(root, list);
    assert forall j :: 0 <= j < k ==> ps[..k][j] == ps[j];
  }

  lemma DoomedLength(root: Path, list: seq<Digest>, k: nat)
    requires k < 2 * |list|
    ensures |Doomed(root, list)[k]| == |root| + 4
  {
    Siblings(root, list[k / 2]);
  }

  /** The next attempt is stuck, or the sweep gets past it. */
  lemma NextAttempt(root: Path, before: Files, dirs: set<Path>, denied: set<Path>, list: seq<Digest>, k: nat,
                    files: Files, now: set<Path>)
    requires SweptTo(root, before, list, k, files) && k < 2 * |list| && ShortDirsGone(root, dirs, now)
    requires FreeUpTo(root, list, k, before, dirs, denied)
    ensures if Stuck(files, now, denied, Doomed(root, list)[k]) then StuckAt(root, list, k, before, dirs, denied)
            else FreeUpTo(root, list, k + 1, before, dirs, denied)
  {
    StuckNow(root, before, dirs, denied, list, k, files, now);
    hide Doomed, Stuck, SweptTo, ShortDirsGone;
  }

  lemma SweepPairFree(root: Path, before: Files, dirs: set<Path>, denied: set<Path>, list: seq<Digest>, i: nat,
                      files: Files, now: set<Path>)
    requires i < |list| && SweptTo(root, before, list, 2 * i, files) && ShortDirsGone(root, dirs, now)
    requires FreeUpTo(root, list, 2 * i, before, dirs, denied)
    ensures var m := Attempts(root, files, now, denied, list[i]);
            && FreeUpTo(root, list, 2 * i + m, before, dirs, denied)
            && (m < 2 ==> StuckAt(root, list, 2 * i + m, before, dirs, denied))
  {
    hide *;
    var node := NodePath(root, list[i]);
    DoomedAt(root, list, i);
    BlobStays(root, files, now, denied, list[i]);
    AttemptsMean(root, files, now, denied, list[i]);
    NextAttempt(root, before, dirs, denied, list, 2 * i, files, now);
    if !Stuck(files, now, denied, node) {
      SweepStep(root, before, list, 2 * i, files);
      NextAttempt(root, before, dirs, denied, list, 2 * i + 1, files - {node}, now);
    }
  }

  lemma BlobStays(root: Path, files: Files, dirs: set<Path>, denied: set<Path>, d: Digest)
    ensures Stuck(files - {NodePath(root, d)}, dirs, denied, BlobPath(root, d)) <==>
            Stuck(files, dirs, denied, BlobPath(root, d))
  {
    hide NodePath, BlobPath;
    PathsInjective(root, d, d);
  }

  lemma MoreDirsGone(root: Path, dirs: set<Path>, now: set<Path>, now': set<Path>, p: Path)
    requires ShortDirsGone(root, dirs, now) && now' <= now && |p| == |root| + 4
    requires forall x :: x in now - now' ==> Under(x, p)
    ensures ShortDirsGone(root, dirs, now')
  {
    forall x | x in dirs - now' ensures |x| < |root| + 4 {
      assert x in dirs - now || x in now - now';
    }
  }

  lemma SweepPairPrunes(root: Path, before: Files, dirs: set<Path>, denied: set<Path>, list: seq<Digest>, i: nat,
                        files: Files, now: set<Path>, files': Files, now': set<Path>)
    requires i < |list| && SweptTo(root, before, list, 2 * i, files) && ShortDirsGone(root, dirs, now)
    requires Pruned(root, before, list[..i], files, now, denied)
    requires files' == AfterAttempts(root, files, list[i], 2)
    requires PrunedAbove(root, files, now, files', now', denied, list[i], true)
    ensures Pruned(root, before, list[..i + 1], files', now', denied) && ShortDirsGone(root, dirs, now')
  {
    Siblings(root, list[i]);
    NodeGoneOrThere(root, before, list, i, files);
    MoreDirsGone(root, dirs, now, now', NodePath(root, list[i]));
    hide NodePath, BlobPath, NoEmptyAncestor, Doomed, SweptTo, ShortDirsGone;
    forall e | e in list[..i + 1] && NodePath(root, e) in before
      ensures NoEmptyAncestor(root, files', now', denied, NodePath(root, e))
    {
      if e in list[..i] {
        if NoEmptyAncestor(root, files', now', denied, NodePath(root, list[i])) {
          OthersStayClean(root, files, now, files', now', denied, list[i], e);
        }
      } else {
        assert e == list[i];
      }
    }
  }

  /** When a digest comes up, its node file is as it was before, unless the digest came up already. */
  lemma NodeGoneOrThere(root: Path, before: Files, list: seq<Digest>, i: nat, files: Files)
    requires i < |list| && SweptTo(root, before, list, 2 * i, files)
    ensures NodePath(root, list[i]) in before ==> NodePath(root, list[i]) in files || list[i] in list[..i]
  {
    hide NodePath, BlobPath, Doomed;
    var p, ps := NodePath(root, list[i]), Doomed(root, list);
    if p in before && p !in files {
      var k :| 0 <= k < 2 * i && ps[..2 * i][k] == p;
      DoomedAt(root, list, k / 2);
      PathsInjective(root, list[i], list[k / 2]);
      assert ps[k] == p && (k == 2 * (k / 2) || k == 2 * (k / 2) + 1);
      assert list[..i][k / 2] == list[i];
    }
  }
}
