/** A sweep interleaved with other users of the store.  Between any two unlink attempts of the
collector, nodes and blobs may be put and unrelated files written, any number of times. */
module ConcurrentSweep {
  import opened Wrappers
  import opened StoreLayout
  import opened StoreFiles
  import opened Collection
  import opened Sweep

  /** The files, and how many unlink attempts the sweep has made. */
  datatype State = State(files: Files, done: nat)

  /** Unlink is the next attempt of the sweep.  Put stores a node or blob file unless there is one
      already.  Write writes any other file: a reference count, a lock. */
  datatype Event =
    | Unlink
    | Put(p: Path, file: File)
    | Write(p: Path, file: File)

  /** One event, for a sweep that unlinks the doomed paths in order. */
  ghost function Apply(doomed: seq<Path>, s: State, e: Event): State {
    match e
    case Unlink =>
      if s.done < |doomed| then State(s.files - {doomed[s.done]}, s.done + 1) else s
    case Put(p, file) => if p in s.files then s else s.(files := s.files[p := file])
    case Write(p, file) => s.(files := s.files[p := file])
  }

  ghost function Run(doomed: seq<Path>, s: State, events: seq<Event>): State {
    if events == [] then s
    else
      var n := |events| - 1;
      Apply(doomed, Run(doomed, s, events[..n]), events[n])
  }

  /** The sweep unlinks p at one of the attempts numbered from i up to j. */
  ghost predicate UnlinkedIn(doomed: seq<Path>, p: Path, i: nat, j: nat) {
    exists k :: i <= k < j && k < |doomed| && doomed[k] == p
  }

  /** Event j brings the file p about, and no later event of the run unlinks it. */
  ghost predicate PutAndKept(doomed: seq<Path>, s: State, events: seq<Event>, p: Path, j: nat)
    requires j < |events|
  {
    && !events[j].Unlink? && events[j].p == p
    && !UnlinkedIn(doomed, p, Run(doomed, s, events[..j]).done, Run(doomed, s, events).done)
  }

  /** The sweep position never goes back. */
  lemma {:induction false} DoneGrows(doomed: seq<Path>, s: State, events: seq<Event>, j: nat)
    requires j <= |events|
    ensures Run(doomed, s, events[..j]).done <= Run(doomed, s, events).done
  {
    if j < |events| {
      var n := |events| - 1;
      DoneGrows(doomed, s, events[..n], j);
      assert events[..n][..j] == events[..j];
    } else {
      assert events[..j] == events;
    }
  }

  /** The next event is an unlink attempt on p. */
  ghost predicate UnlinksNow(doomed: seq<Path>, s: State, e: Event, p: Path) {
    e.Unlink? && s.done < |doomed| && doomed[s.done] == p
  }

  lemma UnlinkedStep(doomed: seq<Path>, p: Path, i: nat, s: State, e: Event)
    requires i <= s.done
    ensures UnlinkedIn(doomed, p, i, Apply(doomed, s, e).done) <==>
            UnlinkedIn(doomed, p, i, s.done) || UnlinksNow(doomed, s, e, p)
  {
    if UnlinkedIn(doomed, p, i, s.done) {
      var k :| i <= k < s.done && k < |doomed| && doomed[k] == p;
      assert i <= k < Apply(doomed, s, e).done;
    }
    if UnlinksNow(doomed, s, e, p) {
      assert i <= s.done < Apply(doomed, s, e).done;
    }
  }

  lemma OneMoreEvent(doomed: seq<Path>, s: State, events: seq<Event>, e: Event, p: Path, j: nat)
    requires j < |events|
    ensures PutAndKept(doomed, s, events + [e], p, j) <==>
            PutAndKept(doomed, s, events, p, j) && !UnlinksNow(doomed, Run(doomed, s, events), e, p)
  {
    assert (events + [e])[..|events|] == events && (events + [e])[..j] == events[..j];
    DoneGrows(doomed, s, events, j);
    UnlinkedStep(doomed, p, Run(doomed, s, events[..j]).done, Run(doomed, s, events), e);
  }

  /** The file p was there from the start, or came about during the run, and was not unlinked since. */
  ghost predicate Remains(doomed: seq<Path>, s: State, events: seq<Event>, p: Path) {
    || (p in s.files && !UnlinkedIn(doomed, p, s.done, Run(doomed, s, events).done))
    || (exists j :: 0 <= j < |events| && PutAndKept(doomed, s, events, p, j))
  }

  lemma RemainsStep(doomed: seq<Path>, s: State, events: seq<Event>, e: Event, p: Path)
    ensures Remains(doomed, s, events + [e], p) <==>
            || (Remains(doomed, s, events, p) && !UnlinksNow(doomed, Run(doomed, s, events), e, p))
            || (!e.Unlink? && e.p == p)
  {
    var all, n := events + [e], |events|;
    assert all[..n] == events && events[..0] == [];
    DoneGrows(doomed, s, events, 0);
    UnlinkedStep(doomed, p, s.done, Run(doomed, s, events), e);
    forall j | 0 <= j < n
      ensures PutAndKept(doomed, s, all, p, j) <==>
              PutAndKept(doomed, s, events, p, j) && !UnlinksNow(doomed, Run(doomed, s, events), e, p)
    {
      OneMoreEvent(doomed, s, events, e, p, j);
    }
    if !e.Unlink? && e.p == p { assert PutAndKept(doomed, s, all, p, n); }
  }

  /** Exact outcome of every interleaving: a file is there at the end if and only if it was there at
      the start or came about on the way, and the sweep made no unlink attempt on it after that. */
  lemma {:induction false} PresentIff(doomed: seq<Path>, s: State, events: seq<Event>, p: Path)
    ensures p in Run(doomed, s, events).files <==> Remains(doomed, s, events, p)
  {
    if events != [] {
      var n := |events| - 1;
      PresentIff(doomed, s, events[..n], p);
      RemainsStep(doomed, s, events[..n], events[n], p);
      assert events[..n] + [events[n]] == events;
    }
  }

  /** Nodes and blobs only come about by puts. */
  ghost predicate NoOverwrite(root: Path, events: seq<Event>) {
    forall i :: 0 <= i < |events| && events[i].Write? ==>
      !IsNodePath(root, events[i].p) && !IsBlobPath(root, events[i].p)
  }

  /** Safety under concurrent puts: what the sweep was not told to delete - every marked digest and
      every digest that was not enumerated - stays, with its contents, from the moment it is stored. */
  lemma {:induction false} UnlistedFilesStay(
    root: Path, list: seq<Digest>, s: State, events: seq<Event>, d: Digest, p: Path)
    requires d !in list && (p == NodePath(root, d) || p == BlobPath(root, d)) && p in s.files
    requires NoOverwrite(root, events)
    ensures var end := Run(Doomed(root, list), s, events); p in end.files && end.files[p] == s.files[p]
  {
    if events != [] {
      var n := |events| - 1;
      UnlistedFilesStay(root, list, s, events[..n], d, p);
      var last := Run(Doomed(root, list), s, events[..n]);
      PathRoundTrip(root, d);
      if events[n].Unlink? && last.done < 2 * |list| {
        DoomedIsFileOf(root, list, last.done);
      }
    }
  }

  /** The children of a node that is put while the sweep runs: a child that is stored at that moment
      (state s) and not put again is still stored when the sweep is over if and only if the sweep had
      no unlink attempt on its node left to make. */
  lemma ChildSurvivesIff(root: Path, list: seq<Digest>, s: State, events: seq<Event>, child: Digest)
    requires NodePath(root, child) in s.files
    requires Run(Doomed(root, list), s, events).done == 2 * |list|
    requires forall i :: 0 <= i < |events| && !events[i].Unlink? ==> events[i].p != NodePath(root, child)
    ensures NodePath(root, child) in Run(Doomed(root, list), s, events).files <==>
            child !in list[Min((s.done + 1) / 2, |list|)..]
  {
    PresentIff(Doomed(root, list), s, events, NodePath(root, child));
    PendingIff(root, list, child, s.done);
  }

  function Min(a: nat, b: nat): nat {
    if a < b then a else b
  }

  lemma PendingIff(root: Path, list: seq<Digest>, d: Digest, done: nat)
    ensures UnlinkedIn(Doomed(root, list), NodePath(root, d), done, 2 * |list|) <==>
            d in list[Min((done + 1) / 2, |list|)..]
  {
    hide NodePath, BlobPath;
    var p, m := NodePath(root, d), Min((done + 1) / 2, |list|);
    if UnlinkedIn(Doomed(root, list), p, done, 2 * |list|) {
      var k :| done <= k < 2 * |list| && Doomed(root, list)[k] == p;
      PathsInjective(root, d, list[k / 2]);
      assert list[m..][k / 2 - m] == d;
    }
    if d in list[m..] {
      var i :| 0 <= i < |list[m..]| && list[m..][i] == d;
      DoomedAt(root, list, m + i);
    }
  }

  /** The sweep of the collector alone is the run without any other event. */
  lemma {:induction false} AloneIsSweep(root: Path, list: seq<Digest>, before: Files, events: seq<Event>)
    requires forall i :: 0 <= i < |events| ==> events[i].Unlink?
    ensures var end := Run(Doomed(root, list), State(before, 0), events);
            SweptTo(root, before, list, end.done, end.files) && end.done == Min(|events|, 2 * |list|)
  {
    hide NodePath, BlobPath;
    if events == [] {
      assert Doomed(root, list)[..0] == [];
    } else {
      var n := |events| - 1;
      AloneIsSweep(root, list, before, events[..n]);
      var last := Run(Doomed(root, list), State(before, 0), events[..n]);
      if last.done < 2 * |list| { SweepStep(root, before, list, last.done, last.files); }
    }
  }

  /** An interruption between the two unlink attempts made for a digest loses its blob: whichever
      collection completes next, a garbage blob is left behind if and only if the sweep stopped right
      between the digest's node and its blob. */
  lemma OrphanBlobIff(root: Path, before: Files, roots: set<Digest>, list: seq<Digest>, n: nat,
                      mid: Files, after: Files, i: nat)
    requires Tidy(root, before) && NoDuplicates(list) && ToSet(list) == Garbage(root, before, roots)
    requires SweptTo(root, before, list, n, mid) && Completed(root, mid, after, roots)
    requires i < |list| && BlobPath(root, list[i]) in before
    ensures BlobPath(root, list[i]) in after <==> n == 2 * i + 1
  {
    hide NodePath, BlobPath;
    var d := list[i];
    assert d in ToSet(list);
    SweepIsCollection(root, before, {}, roots, list, n, mid) by { assert before - {} == before; }
    LiveSurvives(root, before, mid, roots);
    SweptFilesIff(root, before, list, n, mid, i);
    ListedIffStored(root, before, mid, d);
    FileOfDigest(root, d, Garbage(root, mid, roots));
    if IsLockPath(root, BlobPath(root, d)) { LockIsNoNodeFile(root, BlobPath(root, d), d); }
  }

  /** In a tidy store, and in whatever is left of it, the listed digests are the stored ones. */
  lemma ListedIffStored(root: Path, before: Files, mid: Files, d: Digest)
    requires Tidy(root, before) && SubFiles(mid, before)
    ensures d in ListedDigests(root, mid) <==> NodePath(root, d) in mid
    ensures d in ListedDigests(root, before) <==> NodePath(root, d) in before
  {
    StoredAreListed(root, mid);
    StoredAreListed(root, before);
    StoredMeansNodeFile(root, mid, d);
    StoredMeansNodeFile(root, before, d);
  }

  lemma SweptFilesIff(root: Path, before: Files, list: seq<Digest>, n: nat, mid: Files, i: nat)
    requires NoDuplicates(list) && SweptTo(root, before, list, n, mid) && i < |list|
    ensures NodePath(root, list[i]) in mid <==> NodePath(root, list[i]) in before && n <= 2 * i
    ensures BlobPath(root, list[i]) in mid <==> BlobPath(root, list[i]) in before && n <= 2 * i + 1
  {
    hide NodePath, BlobPath;
    var ps := Doomed(root, list);
    DoomedAt(root, list, i);
    if n > 2 * i { assert ps[..n][2 * i] in ps[..n]; }
    if n > 2 * i + 1 { assert ps[..n][2 * i + 1] in ps[..n]; }
    forall k | 0 <= k < n
      ensures ps[k] == NodePath(root, list[i]) ==> k == 2 * i
      ensures ps[k] == BlobPath(root, list[i]) ==> k == 2 * i + 1
    {
      PathsInjective(root, list[i], list[k / 2]);
      PathsInjective(root, list[k / 2], list[i]);
    }
  }
}
