/** The sweep phase as the sequence of unlink attempts it makes: what is left after any number of
them, what counting removed files amounts to, and what an interruption between two of them costs. */
module Sweep {
  import opened Wrappers
  import opened StoreLayout
  import opened StoreFiles
  import opened Collection

  /** The paths the sweep unlinks for a list of digests, in order: node file, then blob file. */
  ghost function Doomed(root: Path, list: seq<Digest>): (ps: seq<Path>)
    ensures |ps| == 2 * |list|
  {
    seq(2 * |list|, k requires 0 <= k < 2 * |list| =>
      if k % 2 == 0 then NodePath(root, list[k / 2]) else BlobPath(root, list[k / 2]))
  }

  /** The first n unlink attempts turn `before` into `after`. */
  ghost predicate SweptTo(root: Path, before: Files, list: seq<Digest>, n: nat, after: Files) {
    n <= 2 * |list| && after == before - ToSet(Doomed(root, list)[..n])
  }

  lemma SweepStep(root: Path, before: Files, list: seq<Digest>, n: nat, after: Files)
    requires SweptTo(root, before, list, n, after) && n < 2 * |list|
    ensures SweptTo(root, before, list, n + 1, after - {Doomed(root, list)[n]})
  {
    hide Doomed;
    var ps := Doomed(root, list);
    assert ps[..n + 1] == ps[..n] + [ps[n]];
    assert ToSet(ps[..n + 1]) == ToSet(ps[..n]) + {ps[n]};
  }

  lemma DoomedAt(root: Path, list: seq<Digest>, i: nat)
    requires i < |list|
    ensures Doomed(root, list)[2 * i] == NodePath(root, list[i])
    ensures Doomed(root, list)[2 * i + 1] == BlobPath(root, list[i])
  {
    hide NodePath, BlobPath;
  }

  /** The files after the first m of the two attempts made for one digest. */
  ghost function AfterAttempts(root: Path, files: Files, d: Digest, m: nat): Files {
    if m == 0 then files
    else if m == 1 then files - {NodePath(root, d)}
    else files - {NodePath(root, d)} - {BlobPath(root, d)}
  }

  lemma SweepPair(root: Path, before: Files, list: seq<Digest>, i: nat, m: nat, files: Files)
    requires i < |list| && m <= 2 && SweptTo(root, before, list, 2 * i, files)
    ensures SweptTo(root, before, list, 2 * i + m, AfterAttempts(root, files, list[i], m))
  {
    hide NodePath, BlobPath, Doomed;
    DoomedAt(root, list, i);
    SweepStep(root, before, list, 2 * i, files);
    SweepStep(root, before, list, 2 * i + 1, files - {NodePath(root, list[i])});
  }

  lemma DoomedIsFileOf(root: Path, list: seq<Digest>, k: nat)
    requires k < 2 * |list|
    ensures IsFileOf(root, Doomed(root, list)[k], ToSet(list))
  {
    assert list[k / 2] in ToSet(list);
    FileOfDigest(root, list[k / 2], ToSet(list));
  }

  lemma FileOfIsDoomed(root: Path, list: seq<Digest>, p: Path) returns (k: nat)
    requires IsFileOf(root, p, ToSet(list))
    ensures k < 2 * |list| && Doomed(root, list)[k] == p
  {
    var d := DigestFromPath(p).value;
    assert d in list;
    var i :| 0 <= i < |list| && list[i] == d;
    DoomedAt(root, list, i);
    k := if IsNodePath(root, p) then 2 * i else 2 * i + 1;
  }

  /** Every doomed path is a file of a listed digest, and every file of one is doomed. */
  lemma DoomedAreFilesOf(root: Path, list: seq<Digest>)
    ensures forall p :: p in Doomed(root, list) <==> IsFileOf(root, p, ToSet(list))
  {
    var ps := Doomed(root, list);
    forall p ensures p in ps <==> IsFileOf(root, p, ToSet(list)) {
      if p in ps {
        var k :| 0 <= k < |ps| && ps[k] == p;
        DoomedIsFileOf(root, list, k);
      }
      if IsFileOf(root, p, ToSet(list)) {
        var k := FileOfIsDoomed(root, list, p);
        assert ps[k] in ps;
      }
    }
  }

  /** Stopping a sweep of the garbage list anywhere is an interrupted collection, and finishing it is
      a completed one. */
  lemma SweepIsCollection(root: Path, before: Files, locks: set<Path>, roots: set<Digest>,
                          list: seq<Digest>, n: nat, after: Files)
    requires forall p :: p in locks ==> IsLockPath(root, p)
    requires ToSet(list) == Garbage(root, before, roots)
    requires SweptTo(root, before - locks, list, n, after)
    ensures Interrupted(root, before, after, roots)
    ensures n == 2 * |list| ==> Completed(root, before, after, roots)
  {
    DoomedAreFilesOf(root, list);
    var ps := Doomed(root, list);
    assert forall p :: p in ps[..n] ==> p in ps;
    if n == 2 * |list| { assert ps[..n] == ps; }
  }

  /** Unlinking one file changes the stored node digests, the stored blob digests and the bytes by
      exactly that file. */
  lemma UnlinkNodeAccounts(root: Path, files: Files, d: Digest)
    requires NodePath(root, d) in files
    ensures Stored(root, files - {NodePath(root, d)}) == Stored(root, files) - {d}
    ensures StoredBlobs(root, files - {NodePath(root, d)}) == StoredBlobs(root, files)
    ensures d in Stored(root, files)
    ensures TotalBytes(files - {NodePath(root, d)}) + files[NodePath(root, d)].size == TotalBytes(files)
  {
    var p := NodePath(root, d);
    TotalBytesRemove(files, p);
    StoredMeansNodeFile(root, files, d);
    forall e: Digest
      ensures e in Stored(root, files - {p}) <==> e in Stored(root, files) && e != d
      ensures e in StoredBlobs(root, files - {p}) <==> e in StoredBlobs(root, files)
    {
      StoredMeansNodeFile(root, files, e);
      StoredMeansNodeFile(root, files - {p}, e);
      PathsInjective(root, d, e);
    }
  }

  lemma UnlinkBlobAccounts(root: Path, files: Files, d: Digest)
    requires BlobPath(root, d) in files
    ensures Stored(root, files - {BlobPath(root, d)}) == Stored(root, files)
    ensures StoredBlobs(root, files - {BlobPath(root, d)}) == StoredBlobs(root, files) - {d}
    ensures d in StoredBlobs(root, files)
    ensures TotalBytes(files - {BlobPath(root, d)}) + files[BlobPath(root, d)].size == TotalBytes(files)
  {
    var p := BlobPath(root, d);
    TotalBytesRemove(files, p);
    StoredMeansNodeFile(root, files, d);
    forall e: Digest
      ensures e in Stored(root, files - {p}) <==> e in Stored(root, files)
      ensures e in StoredBlobs(root, files - {p}) <==> e in StoredBlobs(root, files) && e != d
    {
      StoredMeansNodeFile(root, files, e);
      StoredMeansNodeFile(root, files - {p}, e);
      PathsInjective(root, d, e);
      PathsInjective(root, e, d);
    }
  }
}
