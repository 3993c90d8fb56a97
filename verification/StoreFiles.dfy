/** The files below a store root as the collector sees them: which digests are stored, which
edges their archives hold, which files the enumeration walk can see, and how many bytes they take. */
module StoreFiles {
  import opened Wrappers
  import opened StoreLayout
  import opened Graph

  /** A file of some size.  `archive` is what validating its bytes as an archived node yields:
      the node's edges, or None when validation fails. */
  datatype File = File(size: nat, archive: Option<seq<Digest>>)

  type Files = map<Path, File>

  predicate Under(dir: Path, p: Path) {
    |dir| < |p| && p[..|dir|] == dir
  }

  function Parent(p: Path): Path
    requires p != []
  {
    p[..|p| - 1]
  }

  function FileName(p: Path): string
    requires p != []
  {
    p[|p| - 1]
  }

  /** A directory tree rooted at root: every file and directory sits in a directory. */
  ghost predicate WellFormed(root: Path, files: Files, dirs: set<Path>) {
    && root in dirs
    && files.Keys !! dirs
    && (forall p :: p in files.Keys + dirs && p != root ==> Under(root, p))
    && (forall p {:trigger Parent(p)} :: p in files.Keys + dirs && p != root ==> Parent(p) in dirs)
  }

  lemma {:induction false} AncestorsAreDirs(root: Path, files: Files, dirs: set<Path>, p: Path, n: nat)
    requires WellFormed(root, files, dirs) && p in files.Keys + dirs && |root| <= n < |p|
    ensures p[..n] in dirs
  {
    assert Parent(p) in dirs;
    if n < |p| - 1 {
      AncestorsAreDirs(root, files, dirs, Parent(p), n);
      assert Parent(p)[..n] == p[..n];
    }
  }

  /** Directories the enumeration walk does not enter. */
  predicate SkippedDir(name: string) {
    name == "ops" || (name != "" && name[0] == '.')
  }

  /** p is a node file below dir that the walk reaches and whose path decodes to a digest. */
  ghost predicate IsListed(dir: Path, p: Path) {
    && Under(dir, p)
    && (forall i :: |dir| <= i < |p| - 1 ==> !SkippedDir(p[i]))
    && FileName(p) == NODE_FILE
    && DigestFromPath(p).Some?
  }

  ghost predicate IsNodePath(root: Path, p: Path) {
    DigestFromPath(p).Some? && p == NodePath(root, DigestFromPath(p).value)
  }

  ghost predicate IsBlobPath(root: Path, p: Path) {
    DigestFromPath(p).Some? && p == BlobPath(root, DigestFromPath(p).value)
  }

  /** The digests with a node file. */
  ghost function Stored(root: Path, files: Files): set<Digest> {
    set p | p in files && IsNodePath(root, p) :: DigestFromPath(p).value
  }

  /** The digests with a blob file. */
  ghost function StoredBlobs(root: Path, files: Files): set<Digest> {
    set p | p in files && IsBlobPath(root, p) :: DigestFromPath(p).value
  }

  lemma StoredMeansNodeFile(root: Path, files: Files, d: Digest)
    ensures d in Stored(root, files) <==> NodePath(root, d) in files
    ensures d in StoredBlobs(root, files) <==> BlobPath(root, d) in files
  {
    PathRoundTrip(root, d);
  }

  ghost function EdgeSet(f: File): set<Digest> {
    if f.archive.Some? then ToSet(f.archive.value) else {}
  }

  ghost function NodeFileOf(root: Path, files: Files, d: Digest): File
    requires d in Stored(root, files)
  {
    StoredMeansNodeFile(root, files, d);
    files[NodePath(root, d)]
  }

  /** The stored DAG.  A node whose archive does not validate has no edges here; a walk that
      meets one fails. */
  ghost function Dag(root: Path, files: Files): map<Digest, set<Digest>> {
    map d | d in Stored(root, files) :: EdgeSet(NodeFileOf(root, files, d))
  }

  lemma DagLookup(root: Path, files: Files, d: Digest)
    ensures d in Dag(root, files) <==> NodePath(root, d) in files
    ensures d in Dag(root, files) ==> Dag(root, files)[d] == EdgeSet(files[NodePath(root, d)])
    ensures d in Readable(root, files) <==> NodePath(root, d) in files && files[NodePath(root, d)].archive.Some?
  {
    StoredMeansNodeFile(root, files, d);
  }

  /** The stored digests whose archive validates. */
  ghost function Readable(root: Path, files: Files): set<Digest> {
    set d | d in Stored(root, files) && NodeFileOf(root, files, d).archive.Some?
  }

  ghost predicate SubFiles(small: Files, files: Files) {
    forall p :: p in small ==> p in files && small[p] == files[p]
  }

  lemma DagOfSubFiles(root: Path, small: Files, files: Files)
    requires SubFiles(small, files)
    ensures Submap(Dag(root, small), Dag(root, files))
  {
    forall d | d in Dag(root, small)
      ensures d in Dag(root, files) && Dag(root, small)[d] == Dag(root, files)[d]
    {
      StoredMeansNodeFile(root, small, d);
      StoredMeansNodeFile(root, files, d);
    }
  }

  /** No visible node file sits anywhere but at the path of the digest it decodes to. */
  ghost predicate Tidy(root: Path, files: Files) {
    forall p :: p in files && IsListed(root, p) ==> IsNodePath(root, p)
  }

  /** A file is listed if and only if it is called node.rkyv, no directory on the way to it is called
      ops or starts with a dot, and the three directories above it spell a digest. */
  lemma ListedIff(root: Path, p: Path)
    ensures |p| < 4 ==> !IsListed(root, p)
    ensures |p| >= 4 ==>
              var name := p[|p| - 4] + p[|p| - 3] + p[|p| - 2];
              var hex := if "sha256:" <= name then name[7..] else name;
              IsListed(root, p) <==>
                && root < p && p[|p| - 1] == "node.rkyv" && |hex| == 64 && AllHex(hex)
                && forall i :: |root| <= i < |p| - 1 ==> p[i] != "ops" && !("." <= p[i])
  {
    if |p| >= 4 { FromHexIff(p[|p| - 4] + p[|p| - 3] + p[|p| - 2]); }
    hide FromHex, AllHex;
  }

  lemma NodePathIsListed(root: Path, d: Digest)
    ensures IsListed(root, NodePath(root, d)) && IsNodePath(root, NodePath(root, d))
  {
    PathRoundTrip(root, d);
    var h := EncodeHex(d);
    assert h[0] in HEX_DIGITS && h[2] in HEX_DIGITS && h[4] in HEX_DIGITS;
    assert |h[..2]| == 2 && |h[2..4]| == 2 && |h[4..]| == 60;
    assert !SkippedDir(h[..2]) && !SkippedDir(h[2..4]) && !SkippedDir(h[4..]);
    var p := NodePath(root, d);
    assert p[..|root|] == root;
    assert p[|root|] == h[..2] && p[|root| + 1] == h[2..4] && p[|root| + 2] == h[4..];
  }

  /** A listing of exactly the listed files names every stored digest; it names each stored digest
      exactly once, and nothing else, if and only if the store is tidy. */
  lemma ListingIsExactIffTidy(root: Path, files: Files, paths: seq<Path>, digests: seq<Digest>)
    requires NoDuplicates(paths)
    requires forall p :: p in paths <==> p in files && IsListed(root, p)
    requires |digests| == |paths|
    requires forall i :: 0 <= i < |paths| ==> DigestFromPath(paths[i]) == Some(digests[i])
    ensures Stored(root, files) <= ToSet(digests)
    ensures NoDuplicates(digests) && ToSet(digests) == Stored(root, files) <==> Tidy(root, files)
  {
    hide NodePath, IsListed, DigestFromPath;
    forall d | d in Stored(root, files) ensures d in digests {
      var i := IndexOfStored(root, files, paths, d);
      assert digests[i] == d;
    }
    if Tidy(root, files) {
      TidyListingIsExact(root, files, paths, digests);
    }
    if NoDuplicates(digests) && ToSet(digests) == Stored(root, files) {
      forall p | p in files && IsListed(root, p) ensures IsNodePath(root, p) {
        assert p in paths;
        var i :| 0 <= i < |paths| && paths[i] == p;
        assert digests[i] in ToSet(digests);
        var j := IndexOfStored(root, files, paths, digests[i]);
        assert digests[j] == digests[i];
      }
    }
  }

  lemma IndexOfStored(root: Path, files: Files, paths: seq<Path>, d: Digest) returns (i: nat)
    requires forall p :: p in paths <==> p in files && IsListed(root, p)
    requires d in Stored(root, files)
    ensures i < |paths| && paths[i] == NodePath(root, d) && DigestFromPath(paths[i]) == Some(d)
  {
    StoredMeansNodeFile(root, files, d);
    NodePathIsListed(root, d);
    PathRoundTrip(root, d);
    assert NodePath(root, d) in paths;
    i :| 0 <= i < |paths| && paths[i] == NodePath(root, d);
  }

  lemma TidyListingIsExact(root: Path, files: Files, paths: seq<Path>, digests: seq<Digest>)
    requires NoDuplicates(paths) && Tidy(root, files)
    requires forall p :: p in paths <==> p in files && IsListed(root, p)
    requires |digests| == |paths|
    requires forall i :: 0 <= i < |paths| ==> DigestFromPath(paths[i]) == Some(digests[i])
    ensures NoDuplicates(digests) && ToSet(digests) <= Stored(root, files)
  {
    forall i | 0 <= i < |paths|
      ensures paths[i] == NodePath(root, digests[i]) && digests[i] in Stored(root, files)
    {
      assert paths[i] in paths;
      assert IsNodePath(root, paths[i]);
      StoredMeansNodeFile(root, files, digests[i]);
    }
  }

  ghost function TotalBytes<K(!new)>(files: map<K, File>): nat {
    if files == map[] then 0
    else
      var k :| k in files;
      files[k].size + TotalBytes(files - {k})
  }

  lemma {:induction false} TotalBytesRemove<K(!new)>(files: map<K, File>, k: K)
    requires k in files
    ensures TotalBytes(files) == files[k].size + TotalBytes(files - {k})
    decreases |files|
  {
    var c :| c in files && TotalBytes(files) == files[c].size + TotalBytes(files - {c});
    if c != k {
      assert |files - {c}| < |files| && |files - {k}| < |files| by {
        assert (files - {c}).Keys == files.Keys - {c};
        assert (files - {k}).Keys == files.Keys - {k};
      }
      TotalBytesRemove(files - {c}, k);
      TotalBytesRemove(files - {k}, c);
      assert files - {c} - {k} == files - {k} - {c};
    }
  }
}
