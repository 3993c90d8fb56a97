/** The filter that looks for the detach keys Ctrl-P Ctrl-Q in terminal input arriving in chunks, and
the pump that feeds it and forwards what passes. */
module DetachFilter {
  import opened Wrappers

  const CTRL_P: Byte := 0x10
  const CTRL_Q: Byte := 0x11

  predicate PairAt(s: seq<Byte>, i: int) {
    0 <= i && i + 1 < |s| && s[i] == CTRL_P && s[i + 1] == CTRL_Q
  }

  /** Where the first detach pair of a stream starts. */
  function FirstPair(s: seq<Byte>): (r: Option<nat>)
    ensures r.Some? ==> PairAt(s, r.value) && forall j :: 0 <= j < r.value ==> !PairAt(s, j)
    ensures r.None? ==> forall j :: !PairAt(s, j)
  {
    if |s| < 2 then None
    else if PairAt(s, 0) then Some(0)
    else
      assert forall j :: j > 0 ==> PairAt(s, j) == PairAt(s[1..], j - 1);
      match FirstPair(s[1..])
      case None => None
      case Some(i) => Some(i + 1)
  }

  predicate EndsWithP(s: seq<Byte>) {
    s != [] && s[|s| - 1] == CTRL_P
  }

  /** A stream without a final Ctrl-P, which may be the first half of a pair. */
  function Settled(s: seq<Byte>): seq<Byte> {
    if EndsWithP(s) then s[..|s| - 1] else s
  }

  /** What passes the filter, whether the pair was seen, whether a Ctrl-P is withheld. */
  datatype Verdict = Verdict(filtered: seq<Byte>, detached: bool, pending: bool)

  /** The filter on a whole stream: everything before the first pair; or everything, a final Ctrl-P
      withheld. */
  function Scan(s: seq<Byte>): Verdict {
    match FirstPair(s)
    case Some(i) => Verdict(s[..i], true, false)
    case None => Verdict(Settled(s), false, EndsWithP(s))
  }

  function Carry(pending: bool): seq<Byte> {
    if pending then [CTRL_P] else []
  }

  /** The filter on one chunk.  An empty chunk flushes a withheld Ctrl-P. */
  function ProcessSpec(data: seq<Byte>, pending: bool): Verdict {
    if data == [] then Verdict(Carry(pending), false, false) else Scan(Carry(pending) + data)
  }

  ghost predicate FreeOfP(data: seq<Byte>, k: int, m: int)
    requires 0 <= k <= m <= |data|
  {
    forall j :: k <= j < m ==> data[j] != CTRL_P
  }

  /** bytes.IndexByte from an offset on: the index of the first Ctrl-P, or -1. */
  method IndexOfP(data: seq<Byte>, offset: nat) returns (idx: int)
    requires offset <= |data|
    ensures idx == -1 || offset <= idx < |data|
    ensures idx == -1 ==> FreeOfP(data, offset, |data|)
    ensures idx >= 0 ==> data[idx] == CTRL_P && FreeOfP(data, offset, idx)
  {
    idx := offset;
    while idx < |data|
      invariant offset <= idx <= |data|
      invariant FreeOfP(data, offset, idx)
    {
      if data[idx] == CTRL_P { return; }
      idx := idx + 1;
    }
    idx := -1;
  }

  ghost predicate NoPairBefore(s: seq<Byte>, k: int) {
    forall j :: 0 <= j < k ==> !PairAt(s, j)
  }

  lemma ScanFinds(s: seq<Byte>, i: nat)
    requires PairAt(s, i) && NoPairBefore(s, i)
    ensures FirstPair(s) == Some(i) && Scan(s) == Verdict(s[..i], true, false)
  {
  }

  lemma ScanClean(s: seq<Byte>)
    requires NoPairBefore(s, |s|)
    ensures FirstPair(s) == None && Scan(s) == Verdict(Settled(s), false, EndsWithP(s))
  {
  }

  /** The first `offset` bytes of a chunk, behind the carry, have passed the filter and hold no pair. */
  ghost predicate Progress(data: seq<Byte>, pending: bool, offset: nat, filtered: seq<Byte>) {
    var s, k := Carry(pending) + data, |Carry(pending)| + offset;
    offset <= |data| && filtered == s[..k] && NoPairBefore(s, k)
  }

  method ProcessInput(data: seq<Byte>, pending10: bool) returns (filtered: seq<Byte>, detached: bool, pending: bool)
    ensures Verdict(filtered, detached, pending) == ProcessSpec(data, pending10)
  {
    hide *;
    pending := pending10;
    if !pending {
      var first := IndexOfP(data, 0);
      if first < 0 {
        FastPath(data);
        return data, false, pending;
      }
    }
    Start(data, pending10);
    filtered := [];
    if pending {
      if |data| > 0 && data[0] == CTRL_Q { return [], true, false; }
      filtered, pending := [CTRL_P], false;
    }
    filtered, detached, pending := FilterRest(data, pending10, filtered);
  }

  /** The loop of ProcessInput: the rest of a chunk, after what was carried over from the last one. */
  method FilterRest(data: seq<Byte>, ghost carried: bool, start: seq<Byte>)
    returns (filtered: seq<Byte>, detached: bool, pending: bool)
    requires Progress(data, carried, 0, start)
    ensures Verdict(filtered, detached, pending) == ProcessSpec(data, carried)
  {
    hide *;
    filtered, detached, pending := start, false, false;
    var offset := 0;
    while offset < |data|
      invariant 0 <= offset <= |data| && !pending && !detached && (offset == |data| ==> data == [])
      invariant Progress(data, carried, offset, filtered)
    {
      var pos := IndexOfP(data, offset);
      if pos < 0 {
        ReadToEnd(data, carried, filtered, offset);
        filtered := filtered + data[offset..];
        return;
      }
      ReadOn(data, carried, filtered, offset, pos);
      filtered := filtered + data[offset..pos];
      if pos + 1 < |data| && data[pos + 1] == CTRL_Q {
        FoundAt(data, carried, filtered, pos);
        return filtered, true, pending;
      }
      if pos == |data| - 1 {
        LastWithheld(data, carried, filtered);
        return filtered, false, true;
      }
      KeepLoneP(data, carried, filtered, pos);
      filtered := filtered + [CTRL_P];
      offset := pos + 1;
    }
    NothingToRead(carried, filtered);
  }

  lemma FastPath(data: seq<Byte>)
    requires FreeOfP(data, 0, |data|)
    ensures ProcessSpec(data, false) == Verdict(data, false, false)
  {
    assert [] + data == data;
    ScanClean(data);
  }

  lemma Start(data: seq<Byte>, pending: bool)
    ensures if pending && data != [] && data[0] == CTRL_Q
            then ProcessSpec(data, pending) == Verdict([], true, false)
            else Progress(data, pending, 0, if pending then [CTRL_P] else [])
  {
    if pending && data != [] && data[0] == CTRL_Q { ScanFinds(Carry(pending) + data, 0); }
  }

  /** Reading on from k to m without meeting a Ctrl-P. */
  lemma ReadOn(data: seq<Byte>, pending: bool, filtered: seq<Byte>, k: nat, m: nat)
    requires Progress(data, pending, k, filtered) && k <= m <= |data| && FreeOfP(data, k, m)
    ensures Progress(data, pending, m, filtered + data[k..m])
  {
  }

  /** Passing a Ctrl-P that starts no pair. */
  lemma KeepLoneP(data: seq<Byte>, pending: bool, filtered: seq<Byte>, pos: nat)
    requires Progress(data, pending, pos, filtered)
    requires pos + 1 < |data| && data[pos] == CTRL_P && data[pos + 1] != CTRL_Q
    ensures Progress(data, pending, pos + 1, filtered + [CTRL_P])
  {
  }

  /** The ways to leave the loop: the rest read, a pair found, a final Ctrl-P withheld, no input. */
  lemma ReadToEnd(data: seq<Byte>, pending: bool, filtered: seq<Byte>, k: nat)
    requires Progress(data, pending, k, filtered) && k < |data| && FreeOfP(data, k, |data|)
    ensures ProcessSpec(data, pending) == Verdict(filtered + data[k..], false, false)
  {
    ReadOn(data, pending, filtered, k, |data|);
    assert data[k..|data|] == data[k..];
    ScanClean(Carry(pending) + data);
    assert data[|data| - 1] != CTRL_P;
  }

  lemma FoundAt(data: seq<Byte>, pending: bool, filtered: seq<Byte>, pos: nat)
    requires Progress(data, pending, pos, filtered)
    requires pos + 1 < |data| && data[pos] == CTRL_P && data[pos + 1] == CTRL_Q
    ensures ProcessSpec(data, pending) == Verdict(filtered, true, false)
  {
    assert PairAt(Carry(pending) + data, |Carry(pending)| + pos);
    ScanFinds(Carry(pending) + data, |Carry(pending)| + pos);
  }

  lemma LastWithheld(data: seq<Byte>, pending: bool, filtered: seq<Byte>)
    requires data != [] && data[|data| - 1] == CTRL_P && Progress(data, pending, |data| - 1, filtered)
    ensures ProcessSpec(data, pending) == Verdict(filtered, false, true)
  {
    ScanClean(Carry(pending) + data);
  }

  lemma NothingToRead(pending: bool, filtered: seq<Byte>)
    requires Progress([], pending, 0, filtered)
    ensures ProcessSpec([], pending) == Verdict(filtered, false, false)
  {
  }

  function Concat(chunks: seq<seq<Byte>>): seq<Byte> {
    if chunks == [] then [] else Concat(chunks[..|chunks| - 1]) + chunks[|chunks| - 1]
  }

  /** Feeding chunks one after the other until a pair is seen: all that passed, and the verdict. */
  function Feed(chunks: seq<seq<Byte>>): Verdict {
    if chunks == [] then Verdict([], false, false)
    else
      var v := Feed(chunks[..|chunks| - 1]);
      if v.detached then v
      else
        var w := ProcessSpec(chunks[|chunks| - 1], v.pending);
        w.(filtered := v.filtered + w.filtered)
  }

  /** Scanning in two parts: the second part is scanned behind the withheld Ctrl-P of the first. */
  lemma ScanSplit(s: seq<Byte>, t: seq<Byte>)
    requires FirstPair(s).None? && t != []
    ensures var w := Scan(Carry(EndsWithP(s)) + t); Scan(s + t) == w.(filtered := Settled(s) + w.filtered)
  {
    var u, k := Carry(EndsWithP(s)) + t, |Settled(s)|;
    match FirstPair(u)
    case Some(i) => SplitFound(s, t, i);
    case None => SplitClean(s, t);
  }

  lemma SplitFound(s: seq<Byte>, t: seq<Byte>, i: nat)
    requires FirstPair(s).None? && FirstPair(Carry(EndsWithP(s)) + t) == Some(i)
    ensures Scan(s + t) == Verdict(Settled(s) + (Carry(EndsWithP(s)) + t)[..i], true, false)
  {
    hide Scan, FirstPair;
    var u, k := Carry(EndsWithP(s)) + t, |Settled(s)|;
    PairsBehind(s, t, k + i);
    forall j | 0 <= j < k + i ensures !PairAt(s + t, j) {
      PairsBehind(s, t, j);
      if j >= k { assert !PairAt(u, j - k); }
    }
    ScanFinds(s + t, k + i);
    assert (s + t)[..k + i] == Settled(s) + u[..i];
  }

  lemma SplitClean(s: seq<Byte>, t: seq<Byte>)
    requires FirstPair(s).None? && t != [] && FirstPair(Carry(EndsWithP(s)) + t).None?
    ensures Scan(s + t) == Verdict(Settled(s) + Settled(Carry(EndsWithP(s)) + t), false, EndsWithP(t))
  {
    hide Scan, FirstPair, PairAt;
    var u, k := Carry(EndsWithP(s)) + t, |Settled(s)|;
    forall j | 0 <= j < |s + t| ensures !PairAt(s + t, j) {
      PairsBehind(s, t, j);
      if j >= k { assert !PairAt(u, j - k); }
    }
    ScanClean(s + t);
    SettledSplit(s, t);
  }

  lemma SettledSplit(s: seq<Byte>, t: seq<Byte>)
    requires t != []
    ensures Settled(s + t) == Settled(s) + Settled(Carry(EndsWithP(s)) + t)
    ensures EndsWithP(s + t) == EndsWithP(t) == EndsWithP(Carry(EndsWithP(s)) + t)
  {
    var u := Carry(EndsWithP(s)) + t;
    assert s + t == Settled(s) + u by { assert s == Settled(s) + Carry(EndsWithP(s)); }
    assert (s + t)[|s + t| - 1] == t[|t| - 1] == u[|u| - 1];
  }

  /** One more non-empty chunk behind a stream without a pair. */
  lemma FeedStep(s: seq<Byte>, data: seq<Byte>)
    requires FirstPair(s).None? && data != []
    ensures var v := ProcessSpec(data, EndsWithP(s));
            && (v.detached <==> FirstPair(s + data).Some?)
            && (!v.detached ==> v.pending == EndsWithP(s + data) && Settled(s) + v.filtered == Settled(s + data))
  {
    ScanSplit(s, data);
  }

  lemma PairsBehind(s: seq<Byte>, t: seq<Byte>, j: int)
    requires FirstPair(s).None?
    ensures PairAt(s + t, j) <==> j >= |Settled(s)| && PairAt(Carry(EndsWithP(s)) + t, j - |Settled(s)|)
  {
    assert !PairAt(s, j);
    if 0 <= j < |s + t| && j >= |Settled(s)| {
      assert (s + t)[j] == (Carry(EndsWithP(s)) + t)[j - |Settled(s)|];
    }
  }

  /** A stream that starts with a stream containing a pair has the same first pair. */
  lemma ScanPrefix(s: seq<Byte>, t: seq<Byte>)
    requires FirstPair(s).Some?
    ensures FirstPair(s + t) == FirstPair(s) && Scan(s + t) == Scan(s)
  {
    var i := FirstPair(s).value;
    assert NoPairBefore(s + t, i) by {
      forall j | 0 <= j < i ensures !PairAt(s + t, j) { assert !PairAt(s, j); }
    }
    ScanFinds(s + t, i);
  }

  /** Chunking independence: cut into non-empty chunks in any way, the stream is filtered as if it
      had come in one piece. */
  lemma {:induction false} ChunksDoNotMatter(chunks: seq<seq<Byte>>)
    requires forall i :: 0 <= i < |chunks| ==> chunks[i] != []
    ensures Feed(chunks) == Scan(Concat(chunks))
  {
    if chunks != [] {
      var n := |chunks| - 1;
      ChunksDoNotMatter(chunks[..n]);
      var s, t := Concat(chunks[..n]), chunks[n];
      if FirstPair(s).Some? { ScanPrefix(s, t); } else { ScanSplit(s, t); }
    }
  }

  /** An empty chunk between the two halves hides a pair. */
  lemma EmptyChunkHidesPair()
    ensures Concat([[0x10], [], [0x11]]) == [0x10, 0x11]
    ensures Scan([0x10, 0x11]).detached
    ensures Feed([[0x10], [], [0x11]]) == Verdict([0x10, 0x11], false, false)
  {
    assert [[CTRL_P], [], [CTRL_Q]][..2] == [[CTRL_P], []];
    assert [[CTRL_P], []][..1] == [[CTRL_P]];
    assert [[CTRL_P]][..0] == [];
    assert PairAt([CTRL_P, CTRL_Q], 0);
    assert Concat([[CTRL_P]]) == [CTRL_P];
    assert Concat([[CTRL_P], []]) == [CTRL_P];
    assert Feed([[CTRL_P]]) == Verdict([], false, true);
    assert Feed([[CTRL_P], []]) == Verdict([CTRL_P], false, false);
  }

  datatype ReadEnd = More | Eof | Failed

  /** What one read of standard input returns: some bytes, and possibly an end or an error. */
  datatype ReadResult = ReadResult(data: seq<Byte>, end: ReadEnd)

  datatype Message = Stdin(data: seq<Byte>) | StdinEof

  /** How the pump stops: on the detach keys, at end of input, on a read or send error, or not at all
      within the reads given. */
  datatype Outcome = Detached | Ended | ReadFailed | SendFailed | Waiting

  /** The bytes read by the first reads. */
  function Stream(input: seq<ReadResult>): seq<Byte> {
    if input == [] then [] else Stream(input[..|input| - 1]) + input[|input| - 1].data
  }

  /** The input bytes that reached the workload. */
  function Delivered(sent: seq<Message>): seq<Byte> {
    if sent == [] then []
    else
      var last := sent[|sent| - 1];
      Delivered(sent[..|sent| - 1]) + if last.Stdin? then last.data else []
  }

  lemma DeliveredAppend(sent: seq<Message>, m: Message)
    ensures Delivered(sent + [m]) == Delivered(sent) + if m.Stdin? then m.data else []
  {
    assert (sent + [m])[..|sent|] == sent;
  }

  /** What has been forwarded of a stream that is still being read. */
  function Forwarded(tty: bool, s: seq<Byte>): seq<Byte> {
    if tty then Settled(s) else s
  }

  lemma StreamStep(input: seq<ReadResult>, n: nat)
    requires n < |input|
    ensures Stream(input[..n + 1]) == Stream(input[..n]) + input[n].data
  {
    assert input[..n + 1][..n] == input[..n];
  }

  /** The messages that end the input: a withheld Ctrl-P and the end marker, as sends number k on.  A
      send that fails is not noticed. */
  function Closing(pending: bool, k: nat, refused: set<nat>): seq<Message> {
    (if pending && k !in refused then [Stdin([CTRL_P])] else [])
    + (if (if pending then k + 1 else k) !in refused then [StdinEof] else [])
  }

  /** The bytes of the last read are new to the workload. */
  ghost predicate Grows(tty: bool, input: seq<ReadResult>, used: nat)
    requires 0 < used <= |input|
  {
    Forwarded(tty, Stream(input[..used])) != Forwarded(tty, Stream(input[..used - 1]))
  }

  ghost predicate HasPair(tty: bool, s: seq<Byte>) {
    tty && FirstPair(s).Some?
  }

  /** No message was sent on a number whose send fails. */
  ghost predicate Accepted(refused: set<nat>, sent: seq<Message>) {
    forall k :: 0 <= k < |sent| ==> k !in refused
  }

  /** What the pump has sent at the end of an input s. */
  ghost predicate Closed(tty: bool, s: seq<Byte>, refused: set<nat>, sent: seq<Message>) {
    exists data :: ClosedAfter(tty, s, refused, data, sent)
  }

  ghost predicate ClosedAfter(tty: bool, s: seq<Byte>, refused: set<nat>, data: seq<Message>, sent: seq<Message>) {
    && sent == data + Closing(tty && EndsWithP(s), |data|, refused)
    && Delivered(data) == Forwarded(tty, s) && StdinEof !in data && Accepted(refused, data)
  }

  /** The stdin pump; sends are numbered, and those in `refused` fail.  It takes the first `used` reads:
      up to the first one that completes a pair, or has to be sent and cannot, or ends the input or
      fails; if there is none, all of them.  With no detach keys in a terminal's input, or without a
      terminal, end of input finds every byte read delivered, a withheld Ctrl-P included, and closed
      by one end marker.  On detach nothing of the chunk that completes the pair is delivered; the
      chunks before it are. */
  method Pump(tty: bool, input: seq<ReadResult>, refused: set<nat>)
    returns (sent: seq<Message>, outcome: Outcome, used: nat)
    ensures used <= |input| && (outcome != Waiting ==> used > 0)
    ensures forall i :: 0 <= i < used && (i < used - 1 || outcome == Waiting) ==> input[i].end == More
    ensures outcome == Waiting ==> used == |input| && Delivered(sent) == Forwarded(tty, Stream(input))
    ensures outcome == Detached <==>
              && used > 0 && !HasPair(tty, Stream(input[..used - 1])) && HasPair(tty, Stream(input[..used]))
    ensures outcome == Detached ==> Delivered(sent) == Settled(Stream(input[..used - 1]))
    ensures outcome == SendFailed ==>
              && !HasPair(tty, Stream(input[..used])) && Grows(tty, input, used) && |sent| in refused
              && Delivered(sent) == Forwarded(tty, Stream(input[..used - 1]))
    ensures outcome != Ended ==> Accepted(refused, sent)
    ensures outcome == Ended <==> used > 0 && input[used - 1].end == Eof && outcome !in {Detached, SendFailed}
    ensures outcome == Ended ==>
              !HasPair(tty, Stream(input[..used])) && Closed(tty, Stream(input[..used]), refused, sent)
    ensures outcome == Ended && refused == {} ==>
              && Delivered(sent) == Stream(input[..used])
              && sent != [] && sent[|sent| - 1] == StdinEof && StdinEof !in sent[..|sent| - 1]
    ensures outcome == ReadFailed ==>
              input[used - 1].end == Failed && Delivered(sent) == Forwarded(tty, Stream(input[..used]))
    ensures outcome != Ended ==> StdinEof !in sent
  {
    hide Synced, FirstPair, Settled, Closed, Closing, Forwarded;
    sent, used := [], 0;
    var pending := false;
    NothingYet(tty);
    while used < |input|
      invariant 0 <= used <= |input|
      invariant forall i :: 0 <= i < used ==> input[i].end == More
      invariant Synced(tty, Stream(input[..used]), pending, sent) && Accepted(refused, sent)
    {
      var read := input[used];
      ghost var s := Stream(input[..used]);
      StreamStep(input, used);
      used := used + 1;
      var step;
      SyncedMeans(tty, s, pending, sent);
      sent, pending, step := Forward(tty, read.data, pending, sent, refused, s);
      SyncedMeans(tty, s + read.data, pending, sent);
      if step != Waiting { return sent, step, used; }
      if read.end == Eof {
        Flushed(tty, s + read.data, pending, refused, sent);
        sent := sent + Closing(pending, |sent|, refused);
        return sent, Ended, used;
      }
      if read.end == Failed { return sent, ReadFailed, used; }
    }
    outcome := Waiting;
    assert input[..used] == input;
    SyncedMeans(tty, Stream(input), pending, sent);
  }

  /** The pump is in step with the bytes s read so far: it has forwarded them, except a withheld
      Ctrl-P, and seen no pair. */
  ghost predicate Synced(tty: bool, s: seq<Byte>, pending: bool, sent: seq<Message>) {
    && (tty ==> FirstPair(s).None?)
    && pending == (tty && EndsWithP(s))
    && Delivered(sent) == Forwarded(tty, s)
    && StdinEof !in sent
  }

  /** What the pump does with the bytes of one read; Waiting means it goes on. */
  method Forward(tty: bool, read: seq<Byte>, pending10: bool, sent0: seq<Message>, refused: set<nat>,
                 ghost s: seq<Byte>)
    returns (sent: seq<Message>, pending: bool, step: Outcome)
    requires Synced(tty, s, pending10, sent0)
    ensures step == Waiting ==> Synced(tty, s + read, pending, sent)
    ensures step != Waiting ==> sent == sent0 && (step == Detached || step == SendFailed)
    ensures Accepted(refused, sent0) ==> Accepted(refused, sent)
    ensures step == Detached <==> HasPair(tty, s + read)
    ensures step == SendFailed <==>
              !HasPair(tty, s + read) && Forwarded(tty, s + read) != Forwarded(tty, s) && |sent0| in refused
  {
    sent, pending, step := sent0, pending10, Waiting;
    assert read == [] ==> s + read == s;
    var data := read;
    if |data| > 0 {
      if tty {
        var detached;
        FeedStep(s, data);
        data, detached, pending := ProcessInput(data, pending);
        if detached { return sent, pending, Detached; }
      }
      assert Forwarded(tty, s + read) == Forwarded(tty, s) + data;
      if |data| > 0 {
        if |sent| in refused { return sent, pending, SendFailed; }
        DeliveredAppend(sent, Stdin(data));
        sent := sent + [Stdin(data)];
      }
    }
  }

  lemma NothingYet(tty: bool)
    ensures Synced(tty, [], false, [])
  {
  }

  lemma SyncedMeans(tty: bool, s: seq<Byte>, pending: bool, sent: seq<Message>)
    ensures Synced(tty, s, pending, sent) ==>
              && !HasPair(tty, s)
              && Delivered(sent) == Forwarded(tty, s)
              && (tty ==> Forwarded(tty, s) == Settled(s))
              && StdinEof !in sent
  {
  }

  /** The two last messages at end of input. */
  lemma Flushed(tty: bool, s: seq<Byte>, pending: bool, refused: set<nat>, sent: seq<Message>)
    requires Synced(tty, s, pending, sent) && Accepted(refused, sent)
    ensures var all := sent + Closing(pending, |sent|, refused);
            && !HasPair(tty, s) && Closed(tty, s, refused, all)
            && (refused == {} ==>
                  Delivered(all) == s && all != [] && all[|all| - 1] == StdinEof && StdinEof !in all[..|all| - 1])
  {
    var all := sent + Closing(pending, |sent|, refused);
    assert ClosedAfter(tty, s, refused, sent, all);
    hide FirstPair, Closing, Closed, ClosedAfter;
    if refused == {} {
      AllClosing(pending, |sent|);
      FlushedAll(tty, s, pending, sent);
    }
  }

  lemma AllClosing(pending: bool, k: nat)
    ensures Closing(pending, k, {}) == (if pending then [Stdin([CTRL_P])] else []) + [StdinEof]
  {
  }

  lemma FlushedAll(tty: bool, s: seq<Byte>, pending: bool, sent: seq<Message>)
    requires Synced(tty, s, pending, sent)
    ensures var all := sent + ((if pending then [Stdin([CTRL_P])] else []) + [StdinEof]);
            Delivered(all) == s && all != [] && all[|all| - 1] == StdinEof && StdinEof !in all[..|all| - 1]
  {
    hide FirstPair;
    var flushed := if pending then sent + [Stdin([CTRL_P])] else sent;
    DeliveredAppend(sent, Stdin([CTRL_P]));
    DeliveredAppend(flushed, StdinEof);
    var all := sent + ((if pending then [Stdin([CTRL_P])] else []) + [StdinEof]);
    assert all == flushed + [StdinEof];
    assert all[..|all| - 1] == flushed;
  }
}
