/** What the parser of names takes for text, against section 3 of RFC 3629: the bytes of a sequence of
Unicode scalar values, each in its shortest form. */
module Utf8 {
  import opened Wrappers
  import opened DnsName

  /** A code point that is not a surrogate. */
  type Scalar = c: int | 0 <= c < 0xD800 || 0xE000 <= c < 0x110000

  function Encode(c: Scalar): (s: seq<Byte>)
    ensures 1 <= |s| <= 4
  {
    if c < 0x80 then [c as Byte]
    else if c < 0x800 then [(0xC0 + c / 64) as Byte, Trail(c)]
    else if c < 0x10000 then [(0xE0 + c / 64 / 64) as Byte, Trail(c / 64), Trail(c)]
    else [(0xF0 + c / 64 / 64 / 64) as Byte, Trail(c / 64 / 64), Trail(c / 64), Trail(c)]
  }

  /** A byte for six bits. */
  function Trail(c: nat): Byte {
    (0x80 + c % 64) as Byte
  }

  /** Six more bits behind those of x. */
  function Shift(x: nat, b: Byte): (c: nat)
    requires Continuation(b)
    ensures c / 64 == x && Trail(c) == b && 64 * x <= c < 64 * x + 64 && 64 * x + b as int == c + 0x80
  {
    64 * x + (b as int - 0x80)
  }

  function EncodeAll(text: seq<Scalar>): seq<Byte> {
    if text == [] then [] else Encode(text[0]) + EncodeAll(text[1..])
  }

  /** The parser takes as its first character what was encoded first. */
  lemma FirstIsTaken(c: Scalar, rest: seq<Byte>)
    ensures CharLen(Encode(c) + rest) == |Encode(c)|
  {
  }

  /** What the parser takes as a character is the encoding of one. */
  lemma TakenIsEncoded(s: seq<Byte>) returns (c: Scalar)
    requires s != [] && 0 < CharLen(s)
    ensures CharLen(s) <= |s| && Encode(c) == s[..CharLen(s)]
  {
    var n := CharLen(s);
    if n == 1 {
      c := s[0] as int;
    } else if n == 2 {
      c := Two(s[0], s[1]);
    } else if n == 3 {
      c := Three(s[0], s[1], s[2]);
    } else {
      c := Four(s[0], s[1], s[2], s[3]);
    }
  }

  lemma Two(a: Byte, b: Byte) returns (c: Scalar)
    requires 0xC2 <= a <= 0xDF && Continuation(b)
    ensures Encode(c) == [a, b]
  {
    c := Shift(a as int - 0xC0, b);
  }

  lemma Three(a: Byte, b: Byte, d: Byte) returns (c: Scalar)
    requires 0xE0 <= a <= 0xEF && Continuation(b) && Continuation(d)
    requires (a == 0xE0 ==> b >= 0xA0) && (a == 0xED ==> b <= 0x9F)
    ensures Encode(c) == [a, b, d]
  {
    c := Shift(Shift(a as int - 0xE0, b), d);
    hide Shift;
  }

  lemma Four(a: Byte, b: Byte, d: Byte, e: Byte) returns (c: Scalar)
    requires 0xF0 <= a <= 0xF4 && Continuation(b) && Continuation(d) && Continuation(e)
    requires (a == 0xF0 ==> b >= 0x90) && (a == 0xF4 ==> b <= 0x8F)
    ensures Encode(c) == [a, b, d, e]
  {
    var x := Shift(a as int - 0xF0, b);
    var y := Shift(x, d);
    c := Shift(y, e);
    hide Shift;
  }

  lemma {:induction false} EncodedIsText(text: seq<Scalar>)
    ensures ValidUtf8(EncodeAll(text))
  {
    if text != [] {
      EncodedIsText(text[1..]);
      var s := EncodeAll(text);
      FirstIsTaken(text[0], EncodeAll(text[1..]));
      hide CharLen, Encode;
      assert s[|Encode(text[0])|..] == EncodeAll(text[1..]);
    }
  }

  lemma {:induction false} TextIsEncoded(s: seq<Byte>) returns (text: seq<Scalar>)
    requires ValidUtf8(s)
    ensures s == EncodeAll(text)
  {
    hide CharLen, Encode;
    if s == [] {
      text := [];
    } else {
      var c := TakenIsEncoded(s);
      var rest := TextIsEncoded(s[CharLen(s)..]);
      text := [c] + rest;
      assert text[1..] == rest;
    }
  }

  /** Bytes are taken for text if and only if they encode some sequence of scalar values. */
  lemma TextIff(s: seq<Byte>)
    ensures ValidUtf8(s) <==> exists text :: s == EncodeAll(text)
  {
    hide ValidUtf8, EncodeAll;
    if ValidUtf8(s) { var text := TextIsEncoded(s); }
    forall text | s == EncodeAll(text) ensures ValidUtf8(s) { EncodedIsText(text); }
  }
}
