/** 32-bit address ranges in CIDR notation, with the bit arithmetic of the source written out. */
module Cidr {
  import opened Wrappers

  const WORD: nat := 0x1_0000_0000

  /** size addresses from base on. */
  datatype IpRange = IpRange(base: nat, size: nat)

  function Pow2(n: nat): (p: nat)
    ensures p > 0
  {
    if n == 0 then 1 else 2 * Pow2(n - 1)
  }

  /** Bitwise and of two words of the given width. */
  function BitAnd(x: nat, y: nat, width: nat): nat {
    if width == 0 then 0 else 2 * BitAnd(x / 2, y / 2, width - 1) + (x % 2) * (y % 2)
  }

  /** Bitwise complement of a 32-bit word. */
  function BitNot(x: nat): nat
    requires x < WORD
  {
    WORD - 1 - x
  }

  /** 1 << n on 32-bit words: the shift amount is taken modulo the width. */
  function ShiftOne(n: nat): (r: nat)
    ensures 0 < r < WORD
  {
    Pow2Bound(n % 32);
    Pow2(n % 32)
  }

  /** The range of an address and a prefix length. */
  function FromCidr(ip: nat, prefix: nat): Result<IpRange, string>
    requires ip < WORD
  {
    if prefix > 32 then Err("prefix > 32")
    else
      var mask := if prefix == 0 then 0 else BitNot(ShiftOne(32 - prefix) - 1);
      Ok(IpRange(BitAnd(ip, mask, 32), ShiftOne(32 - prefix)))
  }

  predicate Contains(r: IpRange, x: nat) {
    r.base <= x < r.base + r.size
  }

  ghost predicate Disjoint(a: IpRange, b: IpRange) {
    a.base + a.size <= b.base || b.base + b.size <= a.base
  }

  ghost predicate Nested(a: IpRange, b: IpRange) {
    b.base <= a.base && a.base + a.size <= b.base + b.size
  }

  lemma {:induction false} Pow2Bound(n: nat)
    requires n < 32
    ensures Pow2(n) < WORD
  {
    Pow2Add(n, 32 - n);
    Pow2Is32();
    assert Pow2(32 - n) >= 2;
    MulMono(Pow2(n), 2, Pow2(32 - n));
  }

  lemma Pow2Is32()
    ensures Pow2(32) == WORD
  {
    assert Pow2(8) == 256;
    Pow2Add(8, 8);
    Pow2Add(16, 16);
  }

  lemma {:induction false} Pow2Add(a: nat, b: nat)
    ensures Pow2(a + b) == Pow2(a) * Pow2(b)
  {
    if a > 0 {
      Pow2Add(a - 1, b);
      assert Pow2(a) * Pow2(b) == 2 * (Pow2(a - 1) * Pow2(b));
    }
  }

  /** Masking with all ones above bit k clears exactly the remainder modulo 2^k. */
  lemma {:induction false} MaskClearsRemainder(x: nat, k: nat, width: nat)
    requires x < Pow2(width) && k <= width
    ensures Pow2(k) <= Pow2(width)
    ensures BitAnd(x, Pow2(width) - Pow2(k), width) == x - x % Pow2(k)
  {
    if width > 0 {
      if k == 0 {
        MaskClearsRemainder(x / 2, 0, width - 1);
        assert (Pow2(width) - 1) / 2 == Pow2(width - 1) - 1;
      } else {
        MaskClearsRemainder(x / 2, k - 1, width - 1);
        assert (Pow2(width) - Pow2(k)) / 2 == Pow2(width - 1) - Pow2(k - 1);
        HalfRemainder(x, Pow2(k - 1));
      }
    }
  }

  lemma HalfRemainder(x: nat, m: nat)
    requires m > 0
    ensures x % (2 * m) == 2 * ((x / 2) % m) + x % 2
  {
    var q, r := (x / 2) / m, (x / 2) % m;
    assert x == (2 * m) * q + (2 * r + x % 2);
    RemainderIs(x, 2 * m, q, 2 * r + x % 2);
  }

  lemma RemainderIs(x: nat, m: nat, q: nat, r: nat)
    requires m > 0 && r < m && x == m * q + r
    ensures x / m == q && x % m == r
  {
    var d := x / m - q;
    assert m * (x / m) + x % m == m * q + r;
    assert m * d == r - x % m;
    assert d >= 1 ==> m * d >= m;
    assert d <= -1 ==> m * d + m <= 0;
  }

  lemma FromCidrRoundsDown(ip: nat, prefix: nat)
    requires ip < WORD && 1 <= prefix <= 32
    ensures FromCidr(ip, prefix).Ok?
    ensures FromCidr(ip, prefix).value.size == Pow2(32 - prefix)
    ensures FromCidr(ip, prefix).value.base == ip - ip % Pow2(32 - prefix)
  {
    hide Pow2, BitAnd;
    Pow2Is32();
    MaskClearsRemainder(ip, 32 - prefix, 32);
    assert (32 - prefix) % 32 == 32 - prefix;
  }

  /** Rounding down to a multiple of the size, in an address space of a whole number of blocks. */
  lemma RoundDown(ip: nat, size: nat, blocks: nat)
    requires size > 0 && ip < size * blocks
    ensures (ip - ip % size) == size * (ip / size)
    ensures (ip - ip % size) % size == 0
    ensures ip - ip % size + size <= size * blocks
  {
    var q := ip / size;
    assert ip == size * q + ip % size;
    RemainderIs(size * q, size, q, 0);
    if q >= blocks { MulMono(size, blocks, q); }
    MulMono(size, q + 1, blocks);
  }

  /** What from_cidr computes: for prefixes 1 to 32 the base is the address rounded down to a
      multiple of the size, and the block holds the address and stays inside the address space. */
  lemma CidrBlock(ip: nat, prefix: nat)
    requires ip < WORD && 1 <= prefix <= 32
    ensures FromCidr(ip, prefix).Ok?
    ensures var r := FromCidr(ip, prefix).value;
            && r.size == Pow2(32 - prefix)
            && r.base == ip - ip % r.size
            && r.base % r.size == 0
            && Contains(r, ip)
            && r.base + r.size <= WORD
  {
    hide FromCidr, Pow2;
    FromCidrRoundsDown(ip, prefix);
    Pow2Is32();
    Pow2Add(32 - prefix, prefix);
    RoundDown(ip, Pow2(32 - prefix), Pow2(prefix));
  }

  /** Over every prefix length the code accepts, the block holds the address unless the prefix is 0,
      where the shift by 32 wraps to a block of one address at 0. */
  lemma CidrContainsIff(ip: nat, prefix: nat)
    requires ip < WORD && prefix <= 32
    ensures Contains(FromCidr(ip, prefix).value, ip) <==> prefix != 0 || ip == 0
  {
    if prefix == 0 {
      AndZero(ip, 32);
      assert Pow2(0) == 1;
    } else {
      CidrBlock(ip, prefix);
    }
  }

  /** The remaining prefix lengths: more than 32 is an error, and 0 gives the block of the address 0. */
  lemma CidrEdges(ip: nat, prefix: nat)
    requires ip < WORD
    ensures FromCidr(ip, prefix).Err? <==> prefix > 32
    ensures prefix == 0 ==> FromCidr(ip, prefix) == Ok(IpRange(0, 1))
  {
    AndZero(ip, 32);
  }

  lemma {:induction false} AndZero(x: nat, width: nat)
    ensures BitAnd(x, 0, width) == 0
  {
    if width > 0 { AndZero(x / 2, width - 1); }
  }

  /** Any two CIDR blocks are nested or disjoint. */
  lemma BlocksNestOrSplit(ip: nat, p: nat, jp: nat, q: nat)
    requires ip < WORD && jp < WORD && 1 <= q <= p <= 32
    ensures FromCidr(ip, p).Ok? && FromCidr(jp, q).Ok?
    ensures var small, big := FromCidr(ip, p).value, FromCidr(jp, q).value;
            Nested(small, big) || Disjoint(small, big)
  {
    hide FromCidr, Pow2;
    CidrBlock(ip, p);
    CidrBlock(jp, q);
    var small, big := FromCidr(ip, p).value, FromCidr(jp, q).value;
    var f := Pow2(p - q);
    Pow2Add(32 - p, p - q);
    assert big.size == small.size * f;
    var i, j := small.base / small.size, big.base / big.size;
    MultipleOf(small.base, small.size);
    MultipleOf(big.base, big.size);
    BlockArithmetic(small.size, f, i, j);
    assert small.size * f * j == big.size * j;
  }

  lemma MultipleOf(x: nat, m: nat)
    requires m > 0 && x % m == 0
    ensures x == m * (x / m)
  {
  }

  lemma BlockArithmetic(s: nat, f: nat, i: nat, j: nat)
    ensures || (s * f * j <= s * i && s * i + s <= s * f * j + s * f)
            || s * i + s <= s * f * j
            || s * f * j + s * f <= s * i
  {
    MulAssociates(s, f, j);
    BlocksOnGrid(s, f, i, f * j);
  }

  lemma MulAssociates(x: nat, y: nat, z: nat)
    ensures x * y * z == x * (y * z)
  {
  }

  lemma MulDistributes(x: nat, y: nat, z: nat)
    ensures x * (y + z) == x * y + x * z
  {
  }

  lemma BlocksOnGrid(s: nat, f: nat, i: nat, b: nat)
    ensures || (s * b <= s * i && s * i + s <= s * b + s * f)
            || s * i + s <= s * b
            || s * b + s * f <= s * i
  {
    MulDistributes(s, i, 1);
    MulDistributes(s, b, f);
    if i < b {
      MulMono(s, i + 1, b);
    } else if i >= b + f {
      MulMono(s, b + f, i);
    } else {
      MulMono(s, i + 1, b + f);
      MulMono(s, b, i);
    }
  }
}
