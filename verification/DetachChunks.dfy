/** How the cuts between chunks of terminal input affect the detach filter. */
module DetachChunks {
  import opened Wrappers
  import opened DetachFilter

  type Chunks = seq<seq<Byte>>

  /** The length of the stream in front of chunk i. */
  function Offset(chunks: Chunks, i: nat): nat
    requires i <= |chunks|
  {
    |Concat(chunks[..i])|
  }

  /** Chunk i is empty and comes right behind a withheld Ctrl-P, which it releases. */
  ghost predicate Releases(chunks: Chunks, i: int): (r: bool)
    ensures r ==> 0 <= i < |chunks|
  {
    0 <= i < |chunks| && chunks[i] == [] &&
    FirstPair(Concat(chunks[..i])).None? && EndsWithP(Concat(chunks[..i]))
  }

  /** The stream goes on at position k, and not with a Ctrl-Q. */
  predicate Refuted(s: seq<Byte>, k: nat) {
    k < |s| && s[k] != CTRL_Q
  }

  /** Every Ctrl-P that an empty chunk released turns out to start no pair. */
  ghost predicate Harmless(chunks: Chunks) {
    forall i :: Releases(chunks, i) ==> Refuted(Concat(chunks), Offset(chunks, i))
  }

  /** The three ways a run of the filter can stand: as if the stream had come in one piece; ahead of
      that by a final Ctrl-P; or past a pair it did not see. */
  ghost predicate InStep(chunks: Chunks) {
    Feed(chunks) == Scan(Concat(chunks)) && Harmless(chunks)
  }

  ghost predicate Ahead(chunks: Chunks) {
    var s := Concat(chunks);
    && FirstPair(s).None? && EndsWithP(s) && Feed(chunks) == Verdict(s, false, false)
    && (exists i :: Releases(chunks, i) && Offset(chunks, i) == |s|)
    && (forall i :: Releases(chunks, i) ==> Offset(chunks, i) == |s| || Refuted(s, Offset(chunks, i)))
  }

  ghost predicate Lost(chunks: Chunks) {
    var s := Concat(chunks);
    && FirstPair(s).Some? && |Feed(chunks).filtered| > FirstPair(s).value
    && (exists i :: Releases(chunks, i) && Offset(chunks, i) < |s| && s[Offset(chunks, i)] == CTRL_Q)
  }

  lemma OneMore(init: Chunks, t: seq<Byte>)
    ensures Concat(init + [t]) == Concat(init) + t
    ensures var v := Feed(init);
            Feed(init + [t]) == if v.detached then v
                                else var w := ProcessSpec(t, v.pending); w.(filtered := v.filtered + w.filtered)
    ensures forall i :: 0 <= i < |init| ==>
              (Releases(init + [t], i) <==> Releases(init, i)) && Offset(init + [t], i) == Offset(init, i)
    ensures Offset(init + [t], |init|) == |Concat(init)|
    ensures Releases(init + [t], |init|) <==> t == [] && FirstPair(Concat(init)).None? && EndsWithP(Concat(init))
  {
    hide FirstPair, EndsWithP, ProcessSpec;
    var chunks := init + [t];
    assert chunks[..|init|] == init;
    forall i | 0 <= i < |init| ensures chunks[..i] == init[..i] { }
  }

  lemma StaysHarmless(init: Chunks, t: seq<Byte>)
    requires Harmless(init) && !Releases(init + [t], |init|)
    ensures Harmless(init + [t])
  {
    hide Releases, Offset, Concat, Feed, FirstPair, Scan, EndsWithP, ProcessSpec;
    OneMore(init, t);
    forall i | Releases(init + [t], i) ensures Refuted(Concat(init + [t]), Offset(init + [t], i)) {
      assert Releases(init, i);
    }
  }

  lemma FromInStep(init: Chunks, t: seq<Byte>)
    requires InStep(init)
    ensures InStep(init + [t]) || Ahead(init + [t])
  {
    var s := Concat(init);
    OneMore(init, t);
    if t == [] && FirstPair(s).None? && EndsWithP(s) {
      BecomesAhead(init);
    } else {
      StaysHarmless(init, t);
      FeedsOn(init, t);
    }
  }

  lemma FeedsOn(init: Chunks, t: seq<Byte>)
    requires Feed(init) == Scan(Concat(init))
    requires t != [] || FirstPair(Concat(init)).Some? || !EndsWithP(Concat(init))
    ensures Feed(init + [t]) == Scan(Concat(init + [t]))
  {
    hide Feed, Concat, FirstPair, Releases, Offset;
    OneMore(init, t);
    var s := Concat(init);
    if FirstPair(s).Some? {
      ScanPrefix(s, t);
    } else if t == [] {
      assert s + t == s;
    } else {
      ScanSplit(s, t);
    }
  }

  lemma BecomesAhead(init: Chunks)
    requires InStep(init) && FirstPair(Concat(init)).None? && EndsWithP(Concat(init))
    ensures Ahead(init + [[]])
  {
    hide Feed, Concat, FirstPair, Releases, Offset;
    var s, chunks := Concat(init), init + [[]];
    OneMore(init, []);
    assert s + [] == s && Settled(s) + [CTRL_P] == s;
    assert Releases(chunks, |init|);
    forall i | Releases(chunks, i) ensures Offset(chunks, i) == |s| || Refuted(s, Offset(chunks, i)) {
      assert i < |init| ==> Releases(init, i);
    }
  }

  lemma FromAhead(init: Chunks, t: seq<Byte>)
    requires Ahead(init)
    ensures InStep(init + [t]) || Ahead(init + [t]) || Lost(init + [t])
  {
    hide *;
    if t == [] {
      StaysAhead(init);
    } else if t[0] == CTRL_Q {
      BecomesLost(init, t);
    } else {
      CatchesUp(init, t);
    }
  }

  lemma StaysAhead(init: Chunks)
    requires Ahead(init)
    ensures Ahead(init + [[]])
  {
    hide Feed, Concat, FirstPair, Releases, Offset;
    var s, chunks := Concat(init), init + [[]];
    OneMore(init, []);
    assert s + [] == s;
    assert Releases(chunks, |init|);
    forall i | Releases(chunks, i) ensures Offset(chunks, i) == |s| || Refuted(s, Offset(chunks, i)) {
      assert i < |init| ==> Releases(init, i);
    }
  }

  lemma BecomesLost(init: Chunks, t: seq<Byte>)
    requires Ahead(init) && t != [] && t[0] == CTRL_Q
    ensures Lost(init + [t])
  {
    hide Feed, Concat, FirstPair, Releases, Offset, Scan;
    var s, chunks := Concat(init), init + [t];
    OneMore(init, t);
    assert PairAt(s + t, |s| - 1);
    var i :| Releases(init, i) && Offset(init, i) == |s|;
    assert Releases(chunks, i) && Offset(chunks, i) < |s + t| && (s + t)[Offset(chunks, i)] == CTRL_Q;
    assert FirstPair(s + t).Some?;
    if FirstPair(s + t).value > |s| - 1 { assert false; }
  }

  lemma CatchesUp(init: Chunks, t: seq<Byte>)
    requires Ahead(init) && t != [] && t[0] != CTRL_Q
    ensures InStep(init + [t])
  {
    hide Feed, Concat, FirstPair, Releases, Offset, Scan;
    var s, chunks := Concat(init), init + [t];
    OneMore(init, t);
    ScanSplit(s, t);
    ScanBehindP(t);
    var w := Scan(t);
    assert [] + t == t;
    assert Settled(s) + ([CTRL_P] + w.filtered) == s + w.filtered;
    forall i | Releases(chunks, i) ensures Refuted(s + t, Offset(chunks, i)) {
      assert Releases(init, i);
    }
  }

  /** A Ctrl-P in front of a stream that does not start with Ctrl-Q is just one more byte. */
  lemma ScanBehindP(t: seq<Byte>)
    requires t != [] && t[0] != CTRL_Q
    ensures Scan([CTRL_P] + t) == var w := Scan(t); w.(filtered := [CTRL_P] + w.filtered)
  {
    hide FirstPair, Scan;
    var u := [CTRL_P] + t;
    forall j ensures PairAt(u, j) <==> PairAt(t, j - 1) { }
    match FirstPair(t) {
      case Some(i) =>
        assert NoPairBefore(u, i + 1);
        ScanFinds(u, i + 1);
        ScanFinds(t, i);
        assert u[..i + 1] == [CTRL_P] + t[..i];
      case None =>
        assert NoPairBefore(u, |u|) && NoPairBefore(t, |t|);
        ScanClean(u);
        ScanClean(t);
        assert u[|u| - 1] == t[|t| - 1];
        assert Settled(u) == [CTRL_P] + Settled(t);
    }
  }

  lemma FromLost(init: Chunks, t: seq<Byte>)
    requires Lost(init)
    ensures Lost(init + [t])
  {
    hide Feed, Concat, FirstPair, Releases, Offset, Scan, ProcessSpec;
    var s, chunks := Concat(init), init + [t];
    OneMore(init, t);
    ScanPrefix(s, t);
    var i :| Releases(init, i) && Offset(init, i) < |s| && s[Offset(init, i)] == CTRL_Q;
    assert Releases(chunks, i) && Offset(chunks, i) < |s + t| && (s + t)[Offset(chunks, i)] == CTRL_Q;
  }

  lemma {:induction false} OneOfThree(chunks: Chunks)
    ensures InStep(chunks) || Ahead(chunks) || Lost(chunks)
  {
    if chunks == [] {
    } else {
      var init, t := chunks[..|chunks| - 1], chunks[|chunks| - 1];
      OneOfThree(init);
      assert chunks == init + [t];
      hide *;
      if InStep(init) {
        FromInStep(init, t);
      } else if Ahead(init) {
        FromAhead(init, t);
      } else {
        FromLost(init, t);
      }
    }
  }

  /** Chunking independence, exactly: cut into chunks, the stream is filtered as if it had come in one
      piece if and only if no empty chunk releases a Ctrl-P that ends the stream or starts a pair. */
  lemma ChunksDoNotMatterIff(chunks: Chunks)
    ensures Feed(chunks) == Scan(Concat(chunks)) <==> Harmless(chunks)
  {
    OneOfThree(chunks);
    hide Feed, Concat, FirstPair, Releases, Offset;
    if Ahead(chunks) {
      assert !Refuted(Concat(chunks), |Concat(chunks)|);
    }
  }
}
