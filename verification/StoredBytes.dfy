/** The sizes of sets of stored nodes. */
module StoredBytes {
  import opened Wrappers
  import opened StoreLayout
  import opened StoreFiles

  /** The bytes of the node files of a set of digests. */
  ghost function BytesOf(root: Path, files: Files, digests: set<Digest>): nat {
    TotalBytes(NodeFiles(root, files, digests))
  }

  ghost function NodeFiles(root: Path, files: Files, digests: set<Digest>): map<Digest, File> {
    map d | d in digests && NodePath(root, d) in files :: files[NodePath(root, d)]
  }

  /** One digest more. */
  lemma BytesOfOneMore(root: Path, files: Files, digests: set<Digest>, d: Digest)
    requires d !in digests
    ensures BytesOf(root, files, digests + {d}) ==
            BytesOf(root, files, digests) + if NodePath(root, d) in files then files[NodePath(root, d)].size else 0
  {
    hide NodePath, TotalBytes;
    var more := NodeFiles(root, files, digests + {d});
    if NodePath(root, d) in files {
      TotalBytesRemove(more, d);
      assert more - {d} == NodeFiles(root, files, digests);
    } else {
      assert more == NodeFiles(root, files, digests);
    }
  }

  lemma NoBytes(root: Path, files: Files)
    ensures BytesOf(root, files, {}) == 0
  {
  }

  lemma {:induction false} BytesOfUnion(root: Path, files: Files, a: set<Digest>, b: set<Digest>)
    requires a !! b
    ensures BytesOf(root, files, a + b) == BytesOf(root, files, a) + BytesOf(root, files, b)
  {
    hide NodePath, BytesOf;
    if b == {} {
      NoBytes(root, files);
      assert a + b == a;
    } else {
      var d :| d in b;
      var less := b - {d};
      BytesOfUnion(root, files, a, less);
      BytesOfOneMore(root, files, a + less, d);
      BytesOfOneMore(root, files, less, d);
      assert a + less + {d} == a + b && less + {d} == b;
    }
  }

  lemma BytesOfSubset(root: Path, files: Files, a: set<Digest>, b: set<Digest>)
    requires a <= b
    ensures BytesOf(root, files, a) <= BytesOf(root, files, b)
  {
    hide NodePath, BytesOf;
    BytesOfUnion(root, files, a, b - a);
    assert a + (b - a) == b;
  }

  /** No node file of the digests has more than `big` bytes. */
  ghost predicate NoneLarger(root: Path, files: Files, digests: set<Digest>, big: nat) {
    forall d :: d in digests && NodePath(root, d) in files ==> files[NodePath(root, d)].size <= big
  }

  lemma NoneLargerInSubset(root: Path, files: Files, a: set<Digest>, b: set<Digest>, big: nat)
    requires a <= b && NoneLarger(root, files, b, big)
    ensures NoneLarger(root, files, a, big)
  {
  }

  /** A cache limit of none or zero bytes is no limit. */
  predicate Unlimited(limit: Option<nat>) {
    limit.None? || limit.value == 0
  }

  /** Least recently used nodes were evicted from a cache of `had` bytes: none while it was within
      the limit; afterwards it is, and not by more than the largest node if any was evicted. */
  ghost predicate Trimmed(root: Path, files: Files, limit: Option<nat>, before: set<Digest>, had: nat,
                          after: set<Digest>, total: nat) {
    && after <= before
    && (Unlimited(limit) || had <= limit.value ==> after == before)
    && (!Unlimited(limit) ==> total <= limit.value)
    && (after != before ==> FillsLimit(root, files, limit, before, total))
  }

  /** The total is below the limit by less than the largest of the nodes. */
  ghost predicate FillsLimit(root: Path, files: Files, limit: Option<nat>, digests: set<Digest>, total: int) {
    !Unlimited(limit) && forall big: nat :: NoneLarger(root, files, digests, big) ==> limit.value < total + big
  }

  /** The total is above the limit by at most the largest of the nodes. */
  ghost predicate KeepsLimit(root: Path, files: Files, limit: Option<nat>, digests: set<Digest>, total: int) {
    !Unlimited(limit) ==> forall big: nat :: NoneLarger(root, files, digests, big) ==> total <= limit.value + big
  }

  /** One node was read through the cache, which is trimmed before the node is added. */
  ghost predicate ReadThrough(root: Path, files: Files, limit: Option<nat>, before: set<Digest>, had: nat,
                              d: Digest, after: set<Digest>, total: nat) {
    && after <= before + {d}
    && (Unlimited(limit) || had <= limit.value ==> after == before + {d})
    && (after != before + {d} ==> FillsLimit(root, files, limit, before, total))
    && KeepsLimit(root, files, limit, {d}, total)
  }

  /** The nodes of a set were read through the cache, one after the other: they and what was cached
      before are all cached if they fit, and otherwise the cache is filled up to its limit, to within
      the size of one node either way. */
  ghost predicate Filled(root: Path, files: Files, limit: Option<nat>, before: set<Digest>, nodes: set<Digest>,
                         after: set<Digest>, total: nat) {
    && after <= before + nodes
    && (Unlimited(limit) || BytesOf(root, files, before + nodes) <= limit.value ==> after == before + nodes)
    && (after != before + nodes ==> FillsLimit(root, files, limit, before + nodes, total))
    && (nodes != {} ==> KeepsLimit(root, files, limit, nodes, total))
  }

  lemma FilledNone(root: Path, files: Files, limit: Option<nat>, before: set<Digest>, total: nat)
    ensures Filled(root, files, limit, before, {}, before, total)
  {
    assert before + {} == before;
  }

  lemma FilledOneMore(root: Path, files: Files, limit: Option<nat>, before: set<Digest>, nodes: set<Digest>,
                      cached: set<Digest>, had: nat, d: Digest, after: set<Digest>, total: nat)
    requires Filled(root, files, limit, before, nodes, cached, had) && had == BytesOf(root, files, cached)
    requires ReadThrough(root, files, limit, cached, had, d, after, total) && total == BytesOf(root, files, after)
    ensures Filled(root, files, limit, before, nodes + {d}, after, total)
  {
    hide BytesOf, NoneLarger;
    var all := before + nodes;
    assert before + (nodes + {d}) == all + {d};
    BytesOfSubset(root, files, all, all + {d});
    FillsStill(root, files, limit, all, cached, had, d, after, total);
    KeepsMore(root, files, limit, {d}, nodes + {d}, total);
  }

  lemma FillsStill(root: Path, files: Files, limit: Option<nat>, all: set<Digest>, cached: set<Digest>, had: nat,
                   d: Digest, after: set<Digest>, total: nat)
    requires cached <= all && (cached != all ==> FillsLimit(root, files, limit, all, had))
    requires ReadThrough(root, files, limit, cached, had, d, after, total)
    requires had == BytesOf(root, files, cached) && total == BytesOf(root, files, after)
    ensures after != all + {d} ==> FillsLimit(root, files, limit, all + {d}, total)
  {
    hide BytesOf, NoneLarger;
    if after == cached + {d} {
      BytesOfSubset(root, files, cached, after);
    }
    if after != all + {d} {
      forall big: nat | NoneLarger(root, files, all + {d}, big) ensures limit.Some? && limit.value < total + big {
        NoneLargerInSubset(root, files, all, all + {d}, big);
        NoneLargerInSubset(root, files, cached, all + {d}, big);
      }
    }
  }

  lemma KeepsMore(root: Path, files: Files, limit: Option<nat>, a: set<Digest>, b: set<Digest>, total: nat)
    requires a <= b && KeepsLimit(root, files, limit, a, total)
    ensures KeepsLimit(root, files, limit, b, total)
  {
    forall big: nat | NoneLarger(root, files, b, big) ensures !Unlimited(limit) ==> total <= limit.value + big {
      NoneLargerInSubset(root, files, a, b, big);
    }
  }
}
