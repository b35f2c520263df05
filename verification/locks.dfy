/**
 * The lock table of the 64-bit atomics emulation: where the table sits
 * (`metal_atomic64_generate_library` rounds its address up to a multiple of
 * its size), how an object's address picks a lock word (`get_lock`), and the
 * lock-word protocol (`try_acquire_lock`, `release_lock`).
 */
module Locks {
  import opened Bits
  import opened Words
  import opened Wrappers

  /**
   * `1 << 16 * MemoryLayout<UInt32>.stride`. Swift's `<<` binds tighter than
   * `*`, so this is (1 << 16) * 4 = 2^18 bytes: 2^16 lock words.
   */
  const LockBufferSize: nat := 0x1_0000 * 4
  /** The buffer is allocated at twice the table size, so that it still holds a whole table after rounding up. */
  const AllocatedSize: nat := 2 * LockBufferSize
  /** The number of 4-byte lock words in the aligned table. */
  const LockCount: nat := LockBufferSize / 4
  /** `0x5A39 << 2`, XORed into every hash. */
  const HashXorMask: nat := 0x5A39 * 4

  /**
   * The address baked into the shader as `METAL_ATOMIC64_LOCK_BUFFER_ADDRESS`:
   * `~sizeMinus1 & (gpuAddress + sizeMinus1)`. Swift's `+` on `UInt64` traps
   * on overflow; that trap is `None`. Otherwise the result is the first
   * multiple of the table size at or above `gpuAddress`.
   */
  function AlignLockBase(gpuAddress: Word64): (r: Option<Word64>)
    ensures r.None? <==> gpuAddress + (LockBufferSize - 1) >= TwoTo64
    ensures r.Some? ==> r.value % LockBufferSize == 0
    ensures r.Some? ==> gpuAddress <= r.value < gpuAddress + LockBufferSize
  {
    var sizeMinus1 := LockBufferSize - 1;
    if gpuAddress + sizeMinus1 >= TwoTo64 then
      None
    else
      var sum := gpuAddress + sizeMinus1;
      Pow2Values();
      ClearLowBits(sum, 18, 64);
      RoundDown(sum);
      Some(And(Not(sizeMinus1, 64), sum))
  }

  /**
   * The hash `get_lock` computes from the low 32 bits of an object's
   * address: bits 1 .. 18 XORed with `0x5A39 << 2`. It is a byte offset
   * into the table.
   */
  function Hash(lowerBits: Word32): (r: nat)
    ensures r < LockBufferSize
  {
    Pow2Values();
    XorBound(ExtractBits(lowerBits, 1, 18), HashXorMask, 18);
    Xor(ExtractBits(lowerBits, 1, 18), HashXorMask)
  }

  /**
   * `get_lock`: the address of the lock word that guards `obj`,
   * `lock_buffer_address | hash`.
   */
  function LockAddress(base: Word64, obj: Word64): (r: Word64)
    ensures base % LockBufferSize == 0 && obj % 8 == 0 ==> r == base + Slot(obj) * 4
  {
    var hash := Hash(Low(obj));
    Pow2Values();
    OrBound(base, hash, 64);
    if base % LockBufferSize == 0 && obj % 8 == 0 then
      LowAligned(obj);
      HashAligned(Low(obj));
      OrIntoAlignedBase(base, hash);
      Or(base, hash)
    else
      Or(base, hash)
  }

  /** Keeping the bits of `x` from 18 upwards rounds it down to a multiple of the table size. */
  lemma RoundDown(x: nat)
    ensures Shl(Shr(x, 18), 18) % LockBufferSize == 0
    ensures x - LockBufferSize < Shl(Shr(x, 18), 18) <= x
  {
    Pow2Values();
    SplitLow(x, 18);
    ShlIsMul(Shr(x, 18), 18);
    ModUnique(Shl(Shr(x, 18), 18), LockBufferSize, Shr(x, 18), 0);
  }

  lemma OrIntoAlignedBase(base: nat, hash: nat)
    requires base % LockBufferSize == 0 && hash < LockBufferSize
    ensures Or(base, hash) == base + hash
  {
    Pow2Values();
    var m := base / LockBufferSize;
    ShlIsMul(m, 18);
    assert base == Shl(m, 18);
    OrOfDisjoint(m, hash, 18);
  }

  /** The index, within the aligned table, of the lock word that guards `obj`. */
  function Slot(obj: Word64): (r: nat)
    ensures r < LockCount
  {
    Hash(Low(obj)) / 4
  }

  /** Bits 1 .. 18 of an 8-aligned address are bits 3 .. 18 shifted up by two. */
  lemma WindowOfAligned(x: Word64)
    requires x % 8 == 0
    ensures ExtractBits(Low(x), 1, 18) == 4 * ((x / 8) % 0x1_0000)
  {
    Pow2Values();
    var q := x / 8;
    var a, b := q / 0x2000_0000, q % 0x2000_0000;
    var c, e := b / 0x1_0000, b % 0x1_0000;
    assert x == 8 * q;
    ModUnique(x, TwoTo32, a, 8 * b);
    assert Low(x) == 8 * b;
    ModUnique(8 * b, 2, 4 * b, 0);
    ModUnique(4 * b, 0x4_0000, c, 4 * e);
    ModUnique(q, 0x1_0000, 0x2000 * a + c, e);
  }

  /** For an 8-aligned object the hash is a multiple of 4: a whole lock word. */
  lemma HashAligned(lowerBits: Word32)
    requires lowerBits % 8 == 0
    ensures Hash(lowerBits) % 4 == 0
  {
    Pow2Values();
    var q := lowerBits / 8;
    assert lowerBits / 2 == 4 * q;
    assert ExtractBits(lowerBits, 1, 18) % 4 == 0;
    XorMultipleOf4(ExtractBits(lowerBits, 1, 18), HashXorMask);
  }

  /**
   * The whole 4-byte lock word lies inside the 2 * 2^18 bytes allocated at
   * `gpuAddress`.
   */
  lemma LockWordInBuffer(gpuAddress: Word64, obj: Word64)
    requires AlignLockBase(gpuAddress).Some? && obj % 8 == 0
    ensures gpuAddress <= LockAddress(AlignLockBase(gpuAddress).value, obj)
    ensures LockAddress(AlignLockBase(gpuAddress).value, obj) + 4 <= gpuAddress + AllocatedSize
  {
  }

  /**
   * The lock's position inside the table depends on the low 32 bits of the
   * object's address alone: not on its high bits and not on where the table is.
   */
  lemma LockOffsetIndependence(base1: Word64, base2: Word64, a: Word64, b: Word64)
    requires base1 % LockBufferSize == 0 && base2 % LockBufferSize == 0
    requires a % 8 == 0 && b % 8 == 0 && Low(a) == Low(b)
    ensures LockAddress(base1, a) - base1 == LockAddress(base2, b) - base2
  {
  }

  /**
   * Two 8-aligned objects share a lock exactly when bits 3 .. 18 of their
   * addresses agree: XOR with a constant is a bijection, so it never merges
   * two windows.
   */
  lemma {:induction false} SharedLock(a: Word64, b: Word64)
    requires a % 8 == 0 && b % 8 == 0
    ensures Slot(a) == Slot(b) <==> (a / 8) % 0x1_0000 == (b / 8) % 0x1_0000
  {
    var ea, eb := ExtractBits(Low(a), 1, 18), ExtractBits(Low(b), 1, 18);
    WindowOfAligned(a);
    WindowOfAligned(b);
    LowAligned(a);
    LowAligned(b);
    HashAligned(Low(a));
    HashAligned(Low(b));
    if Slot(a) == Slot(b) {
      assert Hash(Low(a)) == Hash(Low(b));
      XorCancel(ea, HashXorMask);
      XorCancel(eb, HashXorMask);
      assert ea == eb;
    }
  }

  /** Widening a 32-bit value to 64 bits by copying its sign bit. */
  function SignExtend(h: Word32): (r: Word64)
    ensures Low(r) == h
    ensures h < 0x8000_0000 <==> r == h
  {
    if h < 0x8000_0000 then h else h + (TwoTo64 - TwoTo32)
  }

  /**
   * `lock_buffer_address | hash` gives the same lock whether the 32-bit hash
   * is zero- or sign-extended: the hash never has its top bit set.
   */
  lemma SignExtensionHarmless(base: Word64, obj: Word64)
    ensures SignExtend(Hash(Low(obj))) == Hash(Low(obj))
    ensures Or(base, SignExtend(Hash(Low(obj)))) == LockAddress(base, obj)
  {
  }

  /**
   * `try_acquire_lock`: a weak compare-and-swap of the lock word from 0 to 1.
   * `spurious` stands for the hardware's freedom to fail a weak exchange
   * even when the word is 0.
   */
  method TryAcquireLock(locks: array<Word32>, slot: nat, spurious: bool) returns (acquired: bool)
    requires slot < locks.Length
    modifies locks
    ensures acquired <==> old(locks[slot]) == 0 && !spurious
    ensures acquired ==> locks[slot] == 1
    ensures locks[..] == if acquired then old(locks[..])[slot := 1] else old(locks[..])
  {
    var expected: Word32 := 0;
    var desired: Word32 := 1;
    if locks[slot] == expected && !spurious {
      locks[slot] := desired;
      acquired := true;
    } else {
      acquired := false;
    }
  }

  /** `release_lock`: an unconditional store of 0; no owner is checked. */
  method ReleaseLock(locks: array<Word32>, slot: nat)
    requires slot < locks.Length
    modifies locks
    ensures locks[..] == old(locks[..])[slot := 0]
  {
    locks[slot] := 0;
  }
}
