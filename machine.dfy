/**
 * The fixed-width integers of the kernel's C code, modelled as bounded
 * mathematical integers, with the C conversions the kernel relies on
 * written out explicitly.
 */
module Machine {
  const U8_LIMIT: int := 0x100
  const U16_LIMIT: int := 0x1_0000
  const U32_LIMIT: int := 0x1_0000_0000
  const U64_LIMIT: int := 0x1_0000_0000_0000_0000
  const PAGE_SIZE: int := 4096

  type u8 = x: int | 0 <= x < 0x100
  type u16 = x: int | 0 <= x < 0x1_0000
  type u32 = x: int | 0 <= x < 0x1_0000_0000
  type u64 = x: int | 0 <= x < 0x1_0000_0000_0000_0000

  /** Conversion to uint8_t: the value modulo 2^8 (Dafny's % is never negative). */
  function Wrap8(x: int): (r: u8)
    ensures (x - r) % U8_LIMIT == 0
    ensures 0 <= x < U8_LIMIT ==> r == x
  { x % U8_LIMIT }

  /** Conversion to uint32_t: the value modulo 2^32. */
  function Wrap32(x: int): (r: u32)
    ensures (x - r) % U32_LIMIT == 0
    ensures 0 <= x < U32_LIMIT ==> r == x
  { x % U32_LIMIT }

  /** Conversion to uint64_t: the value modulo 2^64. */
  function Wrap64(x: int): (r: u64)
    ensures (x - r) % U64_LIMIT == 0
    ensures 0 <= x < U64_LIMIT ==> r == x
  { x % U64_LIMIT }

  /** The value an int8_t holds after a byte is stored into it (two's complement). */
  function AsInt8(b: u8): (r: int)
    ensures -128 <= r < 128
    ensures (r - b) % U8_LIMIT == 0
  { if b < 128 then b else b - 256 }

  /** The values an int (32-bit, two's complement) can hold. */
  predicate InInt32(x: int) { -0x8000_0000 <= x < 0x8000_0000 }

  /** The value an int (32-bit, two's complement) holds after a conversion. */
  function AsInt32(x: int): (r: int)
    ensures -0x8000_0000 <= r < 0x8000_0000
    ensures (r - x) % U32_LIMIT == 0
  { var w := Wrap32(x); if w < 0x8000_0000 then w else w - U32_LIMIT }

  /** The value an int64_t holds after a conversion from a 64-bit unsigned value. */
  function AsInt64(x: int): (r: int)
    ensures -0x8000_0000_0000_0000 <= r < 0x8000_0000_0000_0000
    ensures (r - x) % U64_LIMIT == 0
    ensures 0 <= x < 0x8000_0000_0000_0000 ==> r == x
  { var w := Wrap64(x); if w < 0x8000_0000_0000_0000 then w else w - U64_LIMIT }

  /** C's integer division, which truncates toward zero (Dafny's / is Euclidean). */
  function CDiv(a: int, b: int): (r: int)
    requires b != 0
    ensures Abs(r) == Abs(a) / Abs(b)
  {
    var q := Abs(a) / Abs(b);
    DivNonNegative(Abs(a), Abs(b));
    if (a >= 0) == (b > 0) then q else -q
  }

  lemma DivNonNegative(x: nat, y: nat)
    requires y > 0
    ensures x / y >= 0
  {
  }

  /** A positive multiple of d is at least d. */
  lemma MulAtLeast(k: int, d: nat)
    requires k >= 1
    ensures k * d >= d
  {
    assert k * d == (k - 1) * d + d;
  }

  /** Multiplying by a non-negative factor keeps the order. */
  lemma MulMonotone(a: nat, b: int, c: int)
    requires b <= c
    ensures a * b <= a * c
  {
    assert a * c - a * b == a * (c - b);
  }

  /** Division and remainder are determined by any quotient and in-range remainder. */
  lemma DivModUnique(x: nat, d: nat, q: nat, r: nat)
    requires d > 0 && x == q * d + r && r < d
    ensures x / d == q && x % d == r
  {
    var q', r' := x / d, x % d;
    assert q' * d + r' == q * d + r;
    if q > q' {
      assert (q - q') * d == r' - r;
      MulAtLeast(q - q', d);
    } else if q < q' {
      assert (q' - q) * d == r - r';
      MulAtLeast(q' - q, d);
    }
  }

  function Abs(x: int): (r: nat)
    ensures r == x || r == -x
  { if x < 0 then -x else x }

  function Min(a: int, b: int): (r: int)
    ensures r <= a && r <= b && (r == a || r == b)
  { if a <= b then a else b }

  function Max(a: int, b: int): (r: int)
    ensures r >= a && r >= b && (r == a || r == b)
  { if a >= b then a else b }

  /** ALIGN_UP(x, PAGE_SIZE): the least multiple of the page size not below x. */
  function AlignPage(x: nat): (r: nat)
    ensures r % PAGE_SIZE == 0 && x <= r < x + PAGE_SIZE
  { ((x + 4095) / 4096) * 4096 }

  /** The bytes of an ASCII text, as the bytes of a C string literal. */
  function Ascii(s: seq<char>): (r: seq<u8>)
    ensures |r| == |s|
  {
    seq(|s|, i requires 0 <= i < |s| => (s[i] as int) % U8_LIMIT)
  }

  // ---------------------------------------------------------------------
  // Memory as bytes

  /** The byte at each address. */
  type Memory = int -> u8

  /** The n bytes from address a on; callers keep the range below 2^64. */
  function Load(mem: Memory, a: int, n: nat): (b: seq<u8>)
    ensures |b| == n && forall i :: 0 <= i < n ==> b[i] == mem(a + i)
  {
    seq(n, i requires 0 <= i < n => mem(a + i))
  }

  /** Memory after the bytes are written from address a on. */
  function Store(mem: Memory, a: int, bytes: seq<u8>): (m: Memory)
    ensures forall p :: m(p) == if a <= p < a + |bytes| then bytes[p - a] else mem(p)
  {
    p => if a <= p < a + |bytes| then bytes[p - a] else mem(p)
  }

  /** The n little-endian bytes of v. */
  function Le(v: nat, n: nat): (b: seq<u8>)
    ensures |b| == n
  {
    if n == 0 then [] else [v % 256] + Le(v / 256, n - 1)
  }

  /** The value of little-endian bytes. */
  function FromLe(b: seq<u8>): nat
  {
    if b == [] then 0 else b[0] + 256 * FromLe(b[1..])
  }

  function Pow256(n: nat): (r: nat)
    ensures r >= 1
  {
    if n == 0 then 1 else 256 * Pow256(n - 1)
  }

  /** Reading back n little-endian bytes gives the value written, while it fits. */
  lemma {:induction false} LeRoundTrip(v: nat, n: nat)
    requires v < Pow256(n)
    ensures FromLe(Le(v, n)) == v
  {
    if n > 0 {
      LeRoundTrip(v / 256, n - 1);
      assert Le(v, n)[1..] == Le(v / 256, n - 1);
    }
  }

  /** Loading back a store that does not wrap gives the bytes stored. */
  lemma StoreLoad(mem: Memory, a: u64, bytes: seq<u8>)
    requires a + |bytes| < U64_LIMIT
    ensures Load(Store(mem, a, bytes), a, |bytes|) == bytes
  {
  }

  lemma Pow256Widths()
    ensures Pow256(4) == U32_LIMIT && Pow256(8) == U64_LIMIT
  {
    assert Pow256(2) == 0x1_0000;
    assert Pow256(4) == U32_LIMIT;
    assert Pow256(6) == 0x1_0000_0000_0000;
  }
}
