/** Domain names on the wire and as text: the parser of a query name and the encoder of an answer
name (sections 3.1 and 4.1.2 of RFC 1035).  Text is UTF-8, held as bytes. */
module DnsName {
  import opened Wrappers

  const DOT: Byte := 0x2E

  predicate Continuation(b: Byte) {
    0x80 <= b <= 0xBF
  }

  /** The length of the UTF-8 sequence at the start of s, or 0 if there is none. */
  function CharLen(s: seq<Byte>): nat
    requires s != []
  {
    var b := s[0];
    if b < 0x80 then 1
    else if 0xC2 <= b <= 0xDF then
      if |s| >= 2 && Continuation(s[1]) then 2 else 0
    else if 0xE0 <= b <= 0xEF then
      var lo, hi := if b == 0xE0 then 0xA0 else 0x80, if b == 0xED then 0x9F else 0xBF;
      if |s| >= 3 && lo <= s[1] <= hi && Continuation(s[2]) then 3 else 0
    else if 0xF0 <= b <= 0xF4 then
      var lo, hi := if b == 0xF0 then 0x90 else 0x80, if b == 0xF4 then 0x8F else 0xBF;
      if |s| >= 4 && lo <= s[1] <= hi && Continuation(s[2]) && Continuation(s[3]) then 4 else 0
    else 0
  }

  predicate ValidUtf8(s: seq<Byte>) {
    s == [] || (0 < CharLen(s) <= |s| && ValidUtf8(s[CharLen(s)..]))
  }

  /** A label behind the name read so far. */
  function Push(name: seq<Byte>, l: seq<Byte>): seq<Byte> {
    (if name == [] then [] else name + [DOT]) + l
  }

  /** parse_qname from some point on, with the name read so far. */
  function ParseFrom(buf: seq<Byte>, name: seq<Byte>): Option<seq<Byte>>
    decreases |buf|
  {
    if buf == [] || buf[0] == 0 then Some(name)
    else
      var len := buf[0] as nat;
      if 1 + len > |buf| || !ValidUtf8(buf[1..1 + len]) then None
      else ParseFrom(buf[1 + len..], Push(name, buf[1..1 + len]))
  }

  method ParseQname(buf: seq<Byte>) returns (r: Option<seq<Byte>>)
    ensures r == ParseFrom(buf, [])
  {
    hide ValidUtf8, CharLen;
    var name: seq<Byte> := [];
    var i := 0;
    while i < |buf|
      invariant 0 <= i <= |buf|
      invariant ParseFrom(buf, []) == ParseFrom(buf[i..], name)
    {
      var len := buf[i] as nat;
      if len == 0 { break; }
      if i + 1 + len > |buf| { return None; }
      var l := buf[i + 1..i + 1 + len];
      assert buf[i..][1..1 + len] == l && buf[i..][1 + len..] == buf[i + 1 + len..];
      if !ValidUtf8(l) { return None; }
      if name != [] { name := name + [DOT]; }
      name := name + l;
      i := i + 1 + len;
    }
    r := Some(name);
  }

  /** The bytes before the first dot. */
  function FirstDot(name: seq<Byte>): (i: nat)
    ensures i <= |name| && DOT !in name[..i] && (i < |name| ==> name[i] == DOT)
  {
    if name == [] || name[0] == DOT then 0
    else
      assert name[..1 + FirstDot(name[1..])] == [name[0]] + name[1..][..FirstDot(name[1..])];
      1 + FirstDot(name[1..])
  }

  /** str::split on dots: never empty. */
  function Split(name: seq<Byte>): (labels: seq<seq<Byte>>)
    ensures labels != []
    decreases |name|
  {
    var i := FirstDot(name);
    if i == |name| then [name] else [name[..i]] + Split(name[i + 1..])
  }

  function Join(labels: seq<seq<Byte>>): seq<Byte>
    requires labels != []
  {
    if |labels| == 1 then labels[0] else labels[0] + [DOT] + Join(labels[1..])
  }

  /** A label behind its length, cut to one byte. */
  function EncodeLabel(l: seq<Byte>): (w: seq<Byte>)
    ensures |w| == 1 + |l|
  {
    [(|l| % 256) as Byte] + l
  }

  function EncodeLabels(labels: seq<seq<Byte>>): seq<Byte> {
    if labels == [] then [] else EncodeLabel(labels[0]) + EncodeLabels(labels[1..])
  }

  function Encode(name: seq<Byte>): seq<Byte> {
    EncodeLabels(Split(name)) + [0]
  }

  /** The encoding loop of build_a_response. */
  method EncodeName(name: seq<Byte>) returns (answer: seq<Byte>)
    ensures answer == Encode(name)
  {
    answer := [];
    var labels := Split(name);
    var i := 0;
    while i < |labels|
      invariant 0 <= i <= |labels|
      invariant EncodeLabels(labels) == answer + EncodeLabels(labels[i..])
    {
      assert labels[i..][0] == labels[i] && labels[i..][1..] == labels[i + 1..];
      answer := answer + [(|labels[i]| % 256) as Byte];
      answer := answer + labels[i];
      i := i + 1;
    }
    answer := answer + [0];
  }

  predicate DotFree(l: seq<Byte>) {
    DOT !in l
  }

  /** A label that fits the wire format. */
  predicate Proper(l: seq<Byte>) {
    0 < |l| <= 255
  }

  ghost predicate AllDotFree(labels: seq<seq<Byte>>) {
    forall i :: 0 <= i < |labels| ==> DotFree(labels[i])
  }

  ghost predicate AllProper(labels: seq<seq<Byte>>) {
    forall i :: 0 <= i < |labels| ==> Proper(labels[i])
  }

  ghost predicate AllUtf8(labels: seq<seq<Byte>>) {
    forall i :: 0 <= i < |labels| ==> ValidUtf8(labels[i])
  }

  lemma {:induction false} JoinInvertsSplit(name: seq<Byte>)
    ensures Join(Split(name)) == name && AllDotFree(Split(name))
    decreases |name|
  {
    var i := FirstDot(name);
    if i < |name| {
      JoinInvertsSplit(name[i + 1..]);
      assert name == name[..i] + [DOT] + name[i + 1..];
    } else {
      assert name[..i] == name;
    }
  }

  lemma FirstDotIs(name: seq<Byte>, i: nat)
    requires i <= |name| && DOT !in name[..i] && (i < |name| ==> name[i] == DOT)
    ensures FirstDot(name) == i
  {
    var j := FirstDot(name);
    assert forall k :: 0 <= k < i ==> name[..i][k] == name[k];
    assert forall k :: 0 <= k < j ==> name[..j][k] == name[k];
  }

  /** Splitting goes by the first dot. */
  lemma SplitAtFirst(l: seq<Byte>, rest: seq<Byte>)
    requires DotFree(l)
    ensures Split(l) == [l] && Split(l + [DOT] + rest) == [l] + Split(rest)
  {
    hide FirstDot;
    var name := l + [DOT] + rest;
    assert name[..|l|] == l && l[..|l|] == l && name[|l| + 1..] == rest;
    FirstDotIs(name, |l|);
    FirstDotIs(l, |l|);
  }

  lemma {:induction false} SplitInvertsJoin(labels: seq<seq<Byte>>)
    requires labels != [] && AllDotFree(labels)
    ensures Split(Join(labels)) == labels
  {
    hide Split, FirstDot, DotFree;
    var l := labels[0];
    if |labels| > 1 {
      SplitInvertsJoin(labels[1..]);
      SplitAtFirst(l, Join(labels[1..]));
      assert labels == [l] + labels[1..];
    } else {
      SplitAtFirst(l, []);
      assert labels == [l];
    }
  }

  /** A dot never falls inside a multi-byte character, so both sides of one are valid UTF-8. */
  lemma {:induction false} DotSplitsUtf8(a: seq<Byte>, b: seq<Byte>)
    requires ValidUtf8(a + [DOT] + b)
    ensures ValidUtf8(a) && ValidUtf8(b)
    decreases |a|
  {
    var s := a + [DOT] + b;
    var k := CharLen(s);
    if a == [] {
      assert s[1..] == b;
    } else {
      assert s[0] == a[0] && s[|a|] == DOT;
      assert k <= |a|;
      assert forall i :: 0 <= i < |a| ==> s[i] == a[i];
      assert CharLen(a) == k;
      assert s[k..] == a[k..] + [DOT] + b;
      DotSplitsUtf8(a[k..], b);
    }
  }

  lemma {:induction false} SplitIsUtf8(name: seq<Byte>)
    requires ValidUtf8(name)
    ensures AllUtf8(Split(name))
    decreases |name|
  {
    var i := FirstDot(name);
    if i < |name| {
      assert name == name[..i] + [DOT] + name[i + 1..];
      DotSplitsUtf8(name[..i], name[i + 1..]);
      SplitIsUtf8(name[i + 1..]);
    }
  }

  /** A parse that goes on behind a name either ends there or goes on with a dot. */
  lemma {:induction false} ParseExtends(buf: seq<Byte>, name: seq<Byte>)
    requires name != []
    ensures var r := ParseFrom(buf, name);
            r.Some? ==> r.value == name || (|name| < |r.value| && r.value[..|name|] == name && r.value[|name|] == DOT)
    decreases |buf|
  {
    if buf != [] && buf[0] != 0 {
      var len := buf[0] as nat;
      if 1 + len <= |buf| && ValidUtf8(buf[1..1 + len]) {
        var next := Push(name, buf[1..1 + len]);
        ParseExtends(buf[1 + len..], next);
        var r := ParseFrom(buf, name);
        if r.Some? {
          assert next[..|name|] == name && next[|name|] == DOT;
          if r.value != next { assert r.value[..|next|] == next; }
        }
      }
    }
  }

  /** The name that a list of labels spells behind the name read so far. */
  ghost function Spelled(name: seq<Byte>, labels: seq<seq<Byte>>): seq<Byte>
    requires labels != []
  {
    Push(name, Join(labels))
  }

  /** Reading one label that fits. */
  lemma ParseProper(l: seq<Byte>, rest: seq<Byte>, name: seq<Byte>)
    requires Proper(l) && ValidUtf8(l)
    ensures ParseFrom(EncodeLabel(l) + rest, name) == ParseFrom(rest, Push(name, l))
  {
    var buf := EncodeLabel(l) + rest;
    assert buf[0] as nat == |l| && buf[1..1 + |l|] == l && buf[1 + |l|..] == rest;
  }

  /** A label of 256 bytes or more is cut short by its length byte, and the name comes out different. */
  lemma ParseTooLong(l: seq<Byte>, rest: seq<Byte>, name: seq<Byte>, more: seq<Byte>)
    requires |l| >= 256 && DotFree(l)
    ensures ParseFrom(EncodeLabel(l) + rest, name) != Some(Push(name, l) + more)
  {
    var buf, r := EncodeLabel(l) + rest, |l| % 256;
    var full := Push(name, l) + more;
    var before := |Push(name, [])|;
    assert buf[0] as nat == r && |full| > |name|;
    if r > 0 && ValidUtf8(buf[1..1 + r]) {
      var cut := Push(name, buf[1..1 + r]);
      ParseExtends(buf[1 + r..], cut);
      assert full[|cut|] == l[r];
      assert l[r] != DOT;
    }
  }

  lemma EncodeHead(labels: seq<seq<Byte>>, tail: seq<Byte>)
    requires labels != []
    ensures EncodeLabels(labels) + tail == EncodeLabel(labels[0]) + (EncodeLabels(labels[1..]) + tail)
  {
  }

  lemma JoinHead(labels: seq<seq<Byte>>) returns (more: seq<Byte>)
    requires labels != []
    ensures Join(labels) == labels[0] + more && (|labels| > 1 ==> more != [])
    ensures |labels| > 1 ==> more == [DOT] + Join(labels[1..])
  {
    more := if |labels| == 1 then [] else [DOT] + Join(labels[1..]);
  }

  lemma {:induction false} ParseEncodedIff(labels: seq<seq<Byte>>, name: seq<Byte>, tail: seq<Byte>)
    requires labels != [] && AllDotFree(labels) && AllUtf8(labels)
    ensures ParseFrom(EncodeLabels(labels) + ([0] + tail), name) == Some(Spelled(name, labels)) <==>
            AllProper(labels) || (name == [] && labels == [[]])
    decreases |labels|
  {
    hide ParseFrom, EncodeLabels, EncodeLabel, Join, ValidUtf8;
    var l, rest := labels[0], labels[1..];
    var buf := EncodeLabels(rest) + ([0] + tail);
    EncodeHead(labels, [0] + tail);
    ProperHead(labels);
    if l == [] {
      EmptyLabelEnds(labels, name, buf);
    } else if |l| >= 256 {
      var more := JoinHead(labels);
      assert DotFree(l);
      assert Spelled(name, labels) == Push(name, l) + more;
      ParseTooLong(l, buf, name, more);
    } else {
      assert Proper(l) && ValidUtf8(l);
      ParseProper(l, buf, name);
      SpelledHead(labels, name);
      if rest == [] {
        ParseEnd(tail, Push(name, l));
      } else {
        ParseEncodedIff(rest, Push(name, l), tail);
      }
    }
  }

  lemma ParseEnd(tail: seq<Byte>, name: seq<Byte>)
    ensures EncodeLabels([]) + ([0] + tail) == [0] + tail && ParseFrom([0] + tail, name) == Some(name)
  {
  }

  lemma ProperHead(labels: seq<seq<Byte>>)
    requires labels != []
    ensures AllProper(labels) <==> Proper(labels[0]) && AllProper(labels[1..])
  {
    assert forall i :: 0 <= i < |labels[1..]| ==> labels[1..][i] == labels[i + 1];
  }

  lemma SpelledHead(labels: seq<seq<Byte>>, name: seq<Byte>)
    requires labels != [] && labels[0] != []
    ensures labels[1..] == [] ==> Spelled(name, labels) == Push(name, labels[0])
    ensures labels[1..] != [] ==> Spelled(name, labels) == Spelled(Push(name, labels[0]), labels[1..])
  {
  }

  /** An empty label is read as the end of the name. */
  lemma EmptyLabelEnds(labels: seq<seq<Byte>>, name: seq<Byte>, buf: seq<Byte>)
    requires labels != [] && labels[0] == []
    ensures ParseFrom(EncodeLabel([]) + buf, name) == Some(Spelled(name, labels)) <==> name == [] && labels == [[]]
  {
    assert (EncodeLabel([]) + buf)[0] == 0;
    var more := JoinHead(labels);
    if |labels| == 1 { assert labels == [[]]; }
    assert Spelled(name, labels) == Push(name, []) + more;
  }

  /** Round trip from text: parsing an encoded name, whatever follows it, gives the name back if and
      only if it is empty or none of its labels is empty or longer than 255 bytes. */
  lemma NameRoundTripIff(name: seq<Byte>, tail: seq<Byte>)
    requires ValidUtf8(name)
    ensures ParseFrom(Encode(name) + tail, []) == Some(name) <==> name == [] || AllProper(Split(name))
  {
    JoinInvertsSplit(name);
    SplitIsUtf8(name);
    assert Encode(name) + tail == EncodeLabels(Split(name)) + ([0] + tail);
    ParseEncodedIff(Split(name), [], tail);
    assert Spelled([], Split(name)) == name;
    if name == [] { assert Split(name) == [[]]; }
    if Split(name) == [[]] { assert Join(Split(name)) == []; }
  }

  /** Encoding the text of labels again gives the same bytes if and only if no label holds a dot. */
  lemma {:induction false} EncodeAgainIff(labels: seq<seq<Byte>>)
    requires labels != [] && AllProper(labels)
    ensures EncodeLabels(Split(Join(labels))) == EncodeLabels(labels) <==> AllDotFree(labels)
    decreases |labels|
  {
    hide Split, FirstDot, DotFree, Proper, EncodeLabel;
    var l := labels[0];
    if AllDotFree(labels) {
      SplitInvertsJoin(labels);
    } else if !DotFree(l) {
      DotInHead(labels);
    } else {
      assert |labels| > 1;
      var rest := Join(labels[1..]);
      SplitAtFirst(l, rest);
      LaterDot(labels);
      EncodeAgainIff(labels[1..]);
      assert ([l] + Split(rest))[1..] == Split(rest);
      CancelFront(EncodeLabel(l), EncodeLabels(Split(rest)), EncodeLabels(labels[1..]));
    }
  }

  /** A first label with a dot is cut there, so the first length byte changes. */
  lemma DotInHead(labels: seq<seq<Byte>>)
    requires labels != [] && Proper(labels[0]) && !DotFree(labels[0])
    ensures EncodeLabels(Split(Join(labels))) != EncodeLabels(labels)
  {
    var more := JoinHead(labels);
    FirstDotWithin(labels[0], more);
    SplitHead(Join(labels));
    FirstLength(Split(Join(labels)));
    FirstLength(labels);
    hide *;
  }

  lemma FirstDotWithin(l: seq<Byte>, more: seq<Byte>)
    requires !DotFree(l)
    ensures FirstDot(l + more) < |l|
  {
    hide FirstDot;
    var i := FirstDot(l + more);
    assert forall k :: 0 <= k < i ==> (l + more)[..i][k] == (l + more)[k];
    var k :| 0 <= k < |l| && l[k] == DOT;
    assert (l + more)[k] == DOT;
  }

  lemma SplitHead(name: seq<Byte>)
    ensures |Split(name)[0]| == FirstDot(name)
  {
  }

  lemma FirstLength(labels: seq<seq<Byte>>)
    requires labels != []
    ensures |EncodeLabels(labels)| > 0 && EncodeLabels(labels)[0] as nat == |labels[0]| % 256
  {
  }

  lemma LaterDot(labels: seq<seq<Byte>>)
    requires |labels| > 1 && DotFree(labels[0]) && !AllDotFree(labels) && AllProper(labels)
    ensures !AllDotFree(labels[1..]) && AllProper(labels[1..])
  {
    var i :| 0 <= i < |labels| && !DotFree(labels[i]);
    assert labels[1..][i - 1] == labels[i];
  }

  lemma CancelFront(a: seq<Byte>, b: seq<Byte>, c: seq<Byte>)
    ensures a + b == a + c <==> b == c
  {
    if a + b == a + c {
      assert (a + b)[|a|..] == b && (a + c)[|a|..] == c;
    }
  }

  /** Round trip from the wire (the labels of a well-formed query name, at least one): the parsed name
      is the labels joined by dots, and encoding it gives the same bytes if and only if no label
      itself contains a dot. */
  lemma WireRoundTripIff(labels: seq<seq<Byte>>, tail: seq<Byte>)
    requires labels != [] && AllProper(labels) && AllUtf8(labels)
    ensures ParseFrom(EncodeLabels(labels) + ([0] + tail), []) == Some(Join(labels))
    ensures Encode(Join(labels)) == EncodeLabels(labels) + [0] <==> AllDotFree(labels)
  {
    hide ParseFrom, Split, EncodeLabels;
    ParseWire(labels, [], tail);
    assert Spelled([], labels) == Join(labels);
    EncodeAgainIff(labels);
    CancelBack(EncodeLabels(Split(Join(labels))), EncodeLabels(labels), [0]);
  }

  /** A length byte with fewer bytes behind it than it says, or with bytes that are not text. */
  predicate BadLabel(buf: seq<Byte>) {
    buf != [] && buf[0] != 0 &&
    (|buf| <= buf[0] as nat || !ValidUtf8(buf[1..1 + buf[0] as nat]))
  }

  /** The labels before the end of a name, and what stands there: nothing, a zero byte or a bad label. */
  ghost predicate Reads(buf: seq<Byte>, labels: seq<seq<Byte>>, rest: seq<Byte>) {
    && buf == EncodeLabels(labels) + rest && AllProper(labels) && AllUtf8(labels)
    && (rest == [] || rest[0] == 0 || BadLabel(rest))
  }

  /** Every buffer is some labels and an end, and parsing it fails if and only if the end is a bad
      label; otherwise it yields the labels joined by dots. */
  lemma {:induction false} ParseReads(buf: seq<Byte>, name: seq<Byte>)
    returns (labels: seq<seq<Byte>>, rest: seq<Byte>)
    ensures Reads(buf, labels, rest)
    ensures ParseFrom(buf, name) ==
            if BadLabel(rest) then None else Some(if labels == [] then name else Spelled(name, labels))
    decreases |buf|
  {
    labels, rest := [], buf;
    if buf != [] && buf[0] != 0 && !BadLabel(buf) {
      var len := buf[0] as nat;
      var l, more := buf[1..1 + len], buf[1 + len..];
      assert buf == EncodeLabel(l) + more;
      var ls;
      ls, rest := ParseReads(more, Push(name, l));
      labels := [l] + ls;
      ReadsOneMore(l, more, ls, rest);
      SpelledHead(labels, name);
      assert labels[1..] == ls;
    } else {
      assert EncodeLabels([]) + buf == buf;
    }
  }

  lemma ReadsOneMore(l: seq<Byte>, more: seq<Byte>, labels: seq<seq<Byte>>, rest: seq<Byte>)
    requires Reads(more, labels, rest) && Proper(l) && ValidUtf8(l)
    ensures Reads(EncodeLabel(l) + more, [l] + labels, rest)
  {
    hide ValidUtf8, BadLabel, EncodeLabel, Proper;
    assert ([l] + labels)[1..] == labels;
    assert EncodeLabel(l) + (EncodeLabels(labels) + rest) == EncodeLabel(l) + EncodeLabels(labels) + rest;
  }

  /** A question with the one label "a.b" is parsed as that name and answered under another. */
  lemma DotInLabelSplits(tail: seq<Byte>)
    ensures var labels: seq<seq<Byte>> := [[0x61, 0x2E, 0x62]];
            && ParseFrom(EncodeLabels(labels) + ([0] + tail), []) == Some(labels[0])
            && Encode(labels[0]) != EncodeLabels(labels) + [0]
  {
    var labels: seq<seq<Byte>> := [[0x61, DOT, 0x62]];
    AsciiIsText(labels[0]);
    assert labels[0][1] == DOT;
    hide ParseFrom, Split, ValidUtf8, EncodeLabels;
    assert Join(labels) == labels[0];
    WireRoundTripIff(labels, tail);
  }

  lemma {:induction false} AsciiIsText(s: seq<Byte>)
    requires forall i :: 0 <= i < |s| ==> s[i] < 0x80
    ensures ValidUtf8(s)
  {
    if s != [] { AsciiIsText(s[1..]); }
  }

  lemma CancelBack(a: seq<Byte>, b: seq<Byte>, c: seq<Byte>)
    ensures a + c == b + c <==> a == b
  {
    if a + c == b + c {
      assert |a| == |b|;
      assert (a + c)[..|a|] == a && (b + c)[..|b|] == b;
    }
  }

  lemma {:induction false} ParseWire(labels: seq<seq<Byte>>, name: seq<Byte>, tail: seq<Byte>)
    requires labels != [] && AllProper(labels) && AllUtf8(labels)
    ensures ParseFrom(EncodeLabels(labels) + ([0] + tail), name) == Some(Spelled(name, labels))
    decreases |labels|
  {
    hide ParseFrom, EncodeLabels, EncodeLabel, Join, ValidUtf8;
    var l, rest := labels[0], labels[1..];
    EncodeHead(labels, [0] + tail);
    ProperHead(labels);
    SpelledHead(labels, name);
    ParseProper(l, EncodeLabels(rest) + ([0] + tail), name);
    if rest == [] {
      ParseEnd(tail, Push(name, l));
    } else {
      ParseWire(rest, Push(name, l), tail);
    }
  }

  /** The root name is encoded with one zero byte too many. */
  lemma RootNameGrows()
    ensures ParseFrom([0], []) == Some([]) && Encode([]) == [0, 0]
  {
    assert Split([]) == [[]];
  }
}
