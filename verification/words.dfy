/**
 * 32- and 64-bit machine words as bounded naturals, and the view of one
 * 64-bit value as a pair of 32-bit halves (`as_type<uint2>` /
 * `as_type<ulong>` in the shader). The device is little-endian: element 0
 * of the `uint2` is the low half.
 */
module Words {
  const TwoTo32: nat := 0x1_0000_0000
  const TwoTo64: nat := 0x1_0000_0000_0000_0000

  type Word32 = x: nat | x < 0x1_0000_0000
  type Word64 = x: nat | x < 0x1_0000_0000_0000_0000

  /** `ulong` addition, which wraps around modulo 2^64. */
  function Wrap64(x: nat): (r: Word64)
    ensures x < TwoTo64 ==> r == x
  {
    x % TwoTo64
  }

  /** The low 32 bits of `v` (element 0 of `as_type<uint2>(v)`). */
  function Low(v: Word64): (r: Word32)
    ensures (v - r) % TwoTo32 == 0
  {
    v % TwoTo32
  }

  /** The high 32 bits of `v` (element 1 of `as_type<uint2>(v)`). */
  function High(v: Word64): (r: Word32)
    ensures r * TwoTo32 <= v < (r + 1) * TwoTo32
  {
    v / TwoTo32
  }

  /** `as_type<ulong>(uint2(lo, hi))`: the 64-bit value whose halves are `lo` and `hi`. */
  function Join(lo: Word32, hi: Word32): (r: Word64)
    ensures Low(r) == lo && High(r) == hi
  {
    hi * TwoTo32 + lo
  }

  /** Joining two halves and splitting the result gives the halves back. */
  lemma HalvesOfJoin(lo: Word32, hi: Word32)
    ensures Low(Join(lo, hi)) == lo && High(Join(lo, hi)) == hi
  {
  }

  /** The low half of an 8-aligned value is 8-aligned. */
  lemma LowAligned(v: Word64)
    requires v % 8 == 0
    ensures Low(v) % 8 == 0
  {
    var q := v / TwoTo32;
    assert v == q * TwoTo32 + Low(v);
    assert q * TwoTo32 == 8 * (q * 0x2000_0000);
  }

  /** Splitting a value and joining its halves gives the value back. */
  lemma JoinOfHalves(v: Word64)
    ensures Join(Low(v), High(v)) == v
  {
  }

  /** Adding in two steps, each wrapping, is adding once and wrapping. */
  lemma WrapAdd(a: nat, b: nat, c: nat)
    ensures Wrap64(Wrap64(a + b) + c) == Wrap64(a + b + c)
  {
    var q := (a + b) / TwoTo64;
    assert a + b == q * TwoTo64 + Wrap64(a + b);
    assert a + b + c == q * TwoTo64 + (Wrap64(a + b) + c);
    ModOfMultiplePlus(q, Wrap64(a + b) + c);
  }

  lemma ModOfMultiplePlus(q: nat, x: nat)
    ensures (q * TwoTo64 + x) % TwoTo64 == x % TwoTo64
  {
  }

  lemma MulNonneg(a: int, b: int)
    requires a >= 0 && b >= 0
    ensures a * b >= 0
  {
  }

  /** Euclidean division is unique: a quotient and remainder in range are the quotient and remainder. */
  lemma ModUnique(x: int, d: int, a: int, b: int)
    requires d > 0 && x == d * a + b && 0 <= b < d
    ensures x / d == a && x % d == b
  {
    var k := a - x / d;
    assert d * k == x % d - b;
    if k >= 1 {
      MulNonneg(d, k - 1);
    } else if k <= -1 {
      MulNonneg(d, -k - 1);
    }
  }
}
