/**
 * Bitwise operations on unbounded naturals, bit 0 first. The shader's
 * `uint` and `ulong` arithmetic is modelled on `nat` with the word width
 * made explicit (see `Words`); these functions give its `&`, `|`, `^`, `~`
 * and `extract_bits`, and the shifts the proofs about them are stated with.
 */
module Bits {
  function Pow2(n: nat): (r: nat)
    ensures r > 0
  {
    if n == 0 then 1 else 2 * Pow2(n - 1)
  }

  /** `x << k`. */
  function Shl(x: nat, k: nat): nat {
    if k == 0 then x else 2 * Shl(x, k - 1)
  }

  /** `x >> k`. */
  function Shr(x: nat, k: nat): nat {
    if k == 0 then x else Shr(x / 2, k - 1)
  }

  /** `x & (2^k - 1)`: the low k bits of `x`. */
  function LowBits(x: nat, k: nat): (r: nat)
    ensures r < Pow2(k)
  {
    if k == 0 then 0 else 2 * LowBits(x / 2, k - 1) + x % 2
  }

  /** `a & b`. */
  function And(a: nat, b: nat): nat
    decreases a
  {
    if a == 0 then 0
    else 2 * And(a / 2, b / 2) + (if a % 2 == 1 && b % 2 == 1 then 1 else 0)
  }

  /** `a | b`. */
  function Or(a: nat, b: nat): nat
    decreases a + b
  {
    if a == 0 && b == 0 then 0
    else 2 * Or(a / 2, b / 2) + (if a % 2 == 1 || b % 2 == 1 then 1 else 0)
  }

  /** `a ^ b`. */
  function Xor(a: nat, b: nat): nat
    decreases a + b
  {
    if a == 0 && b == 0 then 0
    else 2 * Xor(a / 2, b / 2) + (if a % 2 != b % 2 then 1 else 0)
  }

  /** `~a` on a `width`-bit word: every one of the `width` bits flipped. */
  function Not(a: nat, width: nat): (r: nat)
    requires a < Pow2(width)
    ensures r < Pow2(width)
  {
    Pow2(width) - 1 - a
  }

  /** Metal's `extract_bits(x, offset, count)`: bits offset .. offset + count - 1 of `x`, moved to the bottom. */
  function ExtractBits(x: nat, offset: nat, count: nat): (r: nat)
    ensures r < Pow2(count)
  {
    (x / Pow2(offset)) % Pow2(count)
  }

  lemma {:induction false} Pow2Add(a: nat, b: nat)
    ensures Pow2(a + b) == Pow2(a) * Pow2(b)
  {
    if a > 0 {
      Pow2Add(a - 1, b);
      DoubleProduct(Pow2(a - 1), Pow2(b));
    }
  }

  lemma DoubleProduct(x: nat, y: nat)
    ensures 2 * (x * y) == (2 * x) * y
  {
  }

  /** Doubling the exponent squares the power. */
  lemma Pow2Double(n: nat, v: nat)
    requires Pow2(n) == v
    ensures Pow2(n + n) == v * v
  {
    Pow2Add(n, n);
    Square(Pow2(n), v, Pow2(n + n));
  }

  lemma Square(x: nat, v: nat, z: nat)
    requires x == v && z == x * x
    ensures z == v * v
  {
  }

  lemma Pow2Values()
    ensures Pow2(2) == 4 && Pow2(3) == 8 && Pow2(16) == 0x1_0000 && Pow2(18) == 0x4_0000
    ensures Pow2(32) == 0x1_0000_0000 && Pow2(64) == 0x1_0000_0000_0000_0000
  {
    assert Pow2(2) == 4;
    Pow2Double(2, 4);
    Pow2Double(4, 16);
    Pow2Double(8, 0x100);
    Pow2Double(16, 0x1_0000);
    Pow2Double(32, 0x1_0000_0000);
    assert Pow2(18) == 4 * Pow2(16);
  }

  /** A value is its bits from k upwards, shifted back into place, plus its low k bits. */
  lemma {:induction false} SplitLow(x: nat, k: nat)
    ensures x == Shl(Shr(x, k), k) + LowBits(x, k)
  {
    if k > 0 {
      SplitLow(x / 2, k - 1);
    }
  }

  /** Shifting left is multiplying by a power of two. */
  lemma {:induction false} ShlIsMul(x: nat, k: nat)
    ensures Shl(x, k) == x * Pow2(k)
  {
    if k > 0 {
      ShlIsMul(x, k - 1);
      MulTwice(x, Pow2(k - 1));
    }
  }

  lemma MulTwice(m: nat, p: nat)
    ensures m * (2 * p) == 2 * (m * p)
  {
  }

  lemma {:induction false} ShlOfZero(x: nat, k: nat)
    ensures Shl(x, k) == 0 <==> x == 0
  {
    if k > 0 {
      ShlOfZero(x, k - 1);
    }
  }

  /** Shifting left distributes over subtraction. */
  lemma {:induction false} ShlSub(a: nat, b: nat, k: nat)
    requires b <= a
    ensures Shl(b, k) <= Shl(a, k) && Shl(a, k) - Shl(b, k) == Shl(a - b, k)
  {
    if k > 0 {
      ShlSub(a, b, k - 1);
    }
  }

  lemma {:induction false} ShlPow2(j: nat, k: nat)
    ensures Shl(Pow2(j), k) == Pow2(j + k)
  {
    if k > 0 {
      ShlPow2(j, k - 1);
    }
  }

  /** The bits of an n-bit value from k upwards form an (n - k)-bit value. */
  lemma {:induction false} ShrBound(x: nat, n: nat, k: nat)
    requires k <= n && x < Pow2(n)
    ensures Shr(x, k) < Pow2(n - k)
  {
    if k > 0 {
      ShrBound(x / 2, n - 1, k - 1);
    }
  }

  lemma {:induction false} OrZero(a: nat)
    ensures Or(a, 0) == a
    decreases a
  {
    if a > 0 {
      OrZero(a / 2);
    }
  }

  lemma {:induction false} OrBound(a: nat, b: nat, n: nat)
    requires a < Pow2(n) && b < Pow2(n)
    ensures Or(a, b) < Pow2(n)
  {
    if n > 0 && (a != 0 || b != 0) {
      OrBound(a / 2, b / 2, n - 1);
    }
  }

  /** OR-ing bits below position k into a value shifted left by k is an addition. */
  lemma {:induction false} OrOfDisjoint(m: nat, b: nat, k: nat)
    requires b < Pow2(k)
    ensures Or(Shl(m, k), b) == Shl(m, k) + b
  {
    if k == 0 {
      OrZero(m);
    } else if Shl(m, k) != 0 || b != 0 {
      OrOfDisjoint(m, b / 2, k - 1);
    }
  }

  /** For an 8-aligned value, `| 4` sets bit 2, which was clear: it adds 4. */
  lemma OrFourAligned(v: nat)
    requires v % 8 == 0
    ensures Or(v, 4) == v + 4
  {
    Pow2Values();
    ShlIsMul(v / 8, 3);
    OrOfDisjoint(v / 8, 4, 3);
  }

  lemma {:induction false} AndAllOnes(j: nat, q: nat)
    requires q < Pow2(j)
    ensures And(Pow2(j) - 1, q) == q
  {
    if j > 0 {
      AndAllOnes(j - 1, q / 2);
    }
  }

  /** A mask shifted left by k, ANDed with a value, sees only the value's bits from k upwards. */
  lemma {:induction false} AndShifted(mask: nat, q: nat, r: nat, k: nat)
    requires r < Pow2(k)
    ensures And(Shl(mask, k), Shl(q, k) + r) == Shl(And(mask, q), k)
  {
    if k > 0 {
      if Shl(mask, k) == 0 {
        ShlOfZero(mask, k);
        ShlOfZero(0, k);
      } else {
        AndShifted(mask, q, r / 2, k - 1);
      }
    }
  }

  /** `~(2^k - 1)` on an n-bit word is the n - k high bits set. */
  lemma NotLowMask(k: nat, n: nat)
    requires k <= n && Pow2(k) - 1 < Pow2(n)
    ensures Not(Pow2(k) - 1, n) == Shl(Pow2(n - k) - 1, k)
  {
    ShlSub(Pow2(n - k), 1, k);
    ShlPow2(n - k, k);
    ShlPow2(0, k);
  }

  /**
   * Clearing the low k bits of an n-bit value with the mask
   * `~(2^k - 1)` keeps its bits from k upwards.
   */
  lemma ClearLowBits(x: nat, k: nat, n: nat)
    requires k <= n && x < Pow2(n)
    requires Pow2(k) - 1 < Pow2(n)
    ensures And(Not(Pow2(k) - 1, n), x) == Shl(Shr(x, k), k)
  {
    var mask, q, low := Pow2(n - k) - 1, Shr(x, k), LowBits(x, k);
    assert And(mask, q) == q by {
      ShrBound(x, n, k);
      AndAllOnes(n - k, q);
    }
    assert Not(Pow2(k) - 1, n) == Shl(mask, k) by {
      NotLowMask(k, n);
    }
    assert x == Shl(q, k) + low by {
      SplitLow(x, k);
    }
    AndShifted(mask, q, low, k);
  }

  lemma {:induction false} XorZero(a: nat)
    ensures Xor(a, 0) == a
    decreases a
  {
    if a > 0 {
      XorZero(a / 2);
    }
  }

  /** XOR with a fixed value is its own inverse, so it is a bijection. */
  lemma {:induction false} XorCancel(a: nat, c: nat)
    ensures Xor(Xor(a, c), c) == a
    decreases a + c
  {
    if a == 0 && c == 0 {
    } else if Xor(a, c) == 0 && c == 0 {
      XorZero(a);
    } else {
      XorCancel(a / 2, c / 2);
    }
  }

  lemma {:induction false} XorBound(a: nat, b: nat, n: nat)
    requires a < Pow2(n) && b < Pow2(n)
    ensures Xor(a, b) < Pow2(n)
  {
    if n > 0 && (a != 0 || b != 0) {
      XorBound(a / 2, b / 2, n - 1);
    }
  }

  /** XOR keeps the low bits that both operands have clear. */
  lemma XorMultipleOf4(a: nat, b: nat)
    requires a % 4 == 0 && b % 4 == 0
    ensures Xor(a, b) % 4 == 0
  {
    if a != 0 || b != 0 {
      assert a % 2 == 0 && b % 2 == 0 && (a / 2) % 2 == 0 && (b / 2) % 2 == 0;
      assert Xor(a, b) == 2 * Xor(a / 2, b / 2);
      if a / 2 != 0 || b / 2 != 0 {
        assert Xor(a / 2, b / 2) == 2 * Xor(a / 4, b / 4);
      }
    }
  }
}
