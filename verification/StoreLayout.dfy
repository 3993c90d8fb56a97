/** Where the content-addressed store keeps its files: digests in hexadecimal, the sharded path
of a node or blob file, and the way back from a path to a digest. */
module StoreLayout {
  import opened Wrappers

  /** A SHA-256 digest. */
  type Digest = s: seq<Byte> | |s| == 32 witness seq(32, _ => 0)

  /** The components of an absolute path, outermost first. */
  type Path = seq<string>

  const NODE_FILE := "node.rkyv"
  const BLOB_FILE := "blob.raw"
  const HEX_DIGITS := "0123456789abcdef"
  const SHA256_PREFIX := "sha256:"

  function HexDigit(n: Byte): char
    requires n < 16
  {
    HEX_DIGITS[n]
  }

  /** The value of a hexadecimal digit of either case. */
  function HexValue(c: char): Option<Byte> {
    if '0' <= c <= '9' then Some((c as int - '0' as int) as Byte)
    else if 'a' <= c <= 'f' then Some((c as int - 'a' as int + 10) as Byte)
    else if 'A' <= c <= 'F' then Some((c as int - 'A' as int + 10) as Byte)
    else None
  }

  function EncodeHex(bytes: seq<Byte>): (h: string)
    ensures |h| == 2 * |bytes|
    ensures forall c :: c in h ==> c in HEX_DIGITS
  {
    if bytes == [] then ""
    else [HexDigit(bytes[0] / 16), HexDigit(bytes[0] % 16)] + EncodeHex(bytes[1..])
  }

  function DecodeHex(s: string): Option<seq<Byte>> {
    if s == "" then Some([])
    else if |s| == 1 then None
    else
      match (HexValue(s[0]), HexValue(s[1]), DecodeHex(s[2..]))
      case (Some(hi), Some(lo), Some(rest)) => Some([hi * 16 + lo] + rest)
      case _ => None
  }

  /** Digest::from_hex: an optional algorithm prefix, then exactly 32 bytes of hexadecimal. */
  function FromHex(s: string): Option<Digest> {
    var body := if SHA256_PREFIX <= s then s[|SHA256_PREFIX|..] else s;
    match DecodeHex(body)
    case Some(bytes) => if |bytes| == 32 then Some(bytes) else None
    case None => None
  }

  function ShardDir(root: Path, d: Digest): Path {
    var h := EncodeHex(d);
    root + [h[..2], h[2..4], h[4..]]
  }

  function NodePath(root: Path, d: Digest): Path {
    ShardDir(root, d) + [NODE_FILE]
  }

  function BlobPath(root: Path, d: Digest): Path {
    ShardDir(root, d) + [BLOB_FILE]
  }

  /** digest_from_path: the three directory names above the file, joined and decoded. */
  function DigestFromPath(p: Path): Option<Digest> {
    if |p| < 4 then None else FromHex(p[|p| - 4] + p[|p| - 3] + p[|p| - 2])
  }

  lemma HexDigitValue(n: Byte)
    requires n < 16
    ensures HexValue(HexDigit(n)) == Some(n)
  {
  }

  lemma {:induction false} DecodeInvertsEncode(bytes: seq<Byte>)
    ensures DecodeHex(EncodeHex(bytes)) == Some(bytes)
  {
    if bytes != [] {
      var h := EncodeHex(bytes);
      assert h[2..] == EncodeHex(bytes[1..]);
      hide HexValue, HexDigit;
      HexDigitValue(bytes[0] / 16);
      HexDigitValue(bytes[0] % 16);
      DecodeInvertsEncode(bytes[1..]);
      assert bytes == [bytes[0]] + bytes[1..];
    }
  }

  predicate IsHexDigit(c: char) {
    c in "0123456789abcdefABCDEF"
  }

  lemma HexValueIff(c: char)
    ensures HexValue(c).Some? <==> IsHexDigit(c)
  {
  }

  ghost predicate AllHex(s: string) {
    forall i :: 0 <= i < |s| ==> IsHexDigit(s[i])
  }

  lemma AllHexPair(s: string)
    requires |s| >= 2
    ensures AllHex(s) <==> IsHexDigit(s[0]) && IsHexDigit(s[1]) && AllHex(s[2..])
  {
    hide IsHexDigit;
    if IsHexDigit(s[0]) && IsHexDigit(s[1]) && AllHex(s[2..]) {
      forall i | 0 <= i < |s| ensures IsHexDigit(s[i]) {
        if i >= 2 { assert s[2..][i - 2] == s[i]; }
      }
    }
  }

  lemma {:induction false} DecodesIff(s: string)
    ensures DecodeHex(s).Some? <==> |s| % 2 == 0 && AllHex(s)
    ensures DecodeHex(s).Some? ==> 2 * |DecodeHex(s).value| == |s|
  {
    hide *;
    if |s| < 2 {
      DecodeShort(s);
    } else {
      DecodePair(s);
      DecodesIff(s[2..]);
      HexValueIff(s[0]);
      HexValueIff(s[1]);
      AllHexPair(s);
    }
  }

  lemma DecodeShort(s: string)
    requires |s| < 2
    ensures DecodeHex(s).Some? <==> s == ""
    ensures DecodeHex(s).Some? ==> DecodeHex(s).value == [] && AllHex(s)
  {
    hide HexValue, IsHexDigit;
  }

  lemma DecodePair(s: string)
    requires |s| >= 2
    ensures DecodeHex(s).Some? <==> HexValue(s[0]).Some? && HexValue(s[1]).Some? && DecodeHex(s[2..]).Some?
    ensures DecodeHex(s).Some? ==> |DecodeHex(s).value| == 1 + |DecodeHex(s[2..]).value|
  {
    hide HexValue;
  }

  /** A digest is read if and only if, behind an optional prefix, there are exactly 64 hexadecimal
      digits of either case. */
  lemma FromHexIff(s: string)
    ensures var body := if "sha256:" <= s then s[7..] else s; FromHex(s).Some? <==> |body| == 64 && AllHex(body)
  {
    DecodesIff(if "sha256:" <= s then s[7..] else s);
    hide DecodeHex, AllHex;
  }

  /** Reading a digest back from its own node or blob path gives that digest. */
  lemma PathRoundTrip(root: Path, d: Digest)
    ensures DigestFromPath(NodePath(root, d)) == Some(d)
    ensures DigestFromPath(BlobPath(root, d)) == Some(d)
  {
    var h := EncodeHex(d);
    assert h[..2] + h[2..4] + h[4..] == h;
    assert h[0] in HEX_DIGITS && SHA256_PREFIX[0] !in HEX_DIGITS;
    assert !(SHA256_PREFIX <= h);
    DecodeInvertsEncode(d);
  }

  /** Sharding is injective, and node paths, blob paths and everything else stay apart. */
  lemma PathsInjective(root: Path, d: Digest, e: Digest)
    ensures NodePath(root, d) == NodePath(root, e) ==> d == e
    ensures BlobPath(root, d) == BlobPath(root, e) ==> d == e
    ensures NodePath(root, d) != BlobPath(root, e)
  {
    PathRoundTrip(root, d);
    PathRoundTrip(root, e);
    var p, q := NodePath(root, d), BlobPath(root, e);
    assert p[|p| - 1] == NODE_FILE && q[|q| - 1] == BLOB_FILE;
    assert NODE_FILE[0] != BLOB_FILE[0];
  }
}
