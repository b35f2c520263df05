/**
 * A 64-bit object in device memory seen as two 32-bit atomic words
 * (`get_upper_address`, `memory_load`, `memory_store`) and the plain
 * device-memory `__metal_atomic64_store_explicit`.
 */
module Cells {
  import opened Bits
  import opened Words

  /**
   * `get_upper_address`: ORs 4 into the low half of the address and keeps
   * the high half. For an 8-aligned address this is the next 4-byte word.
   */
  function UpperAddress(lower: Word64): (r: Word64)
    ensures High(r) == High(lower)
    ensures lower % 8 == 0 ==> r == lower + 4 && r == Or(lower, 4)
  {
    Pow2Values();
    OrBound(Low(lower), 4, 32);
    var upper := Join(Or(Low(lower), 4), High(lower));
    if lower % 8 == 0 then
      LowAligned(lower);
      OrFourAligned(Low(lower));
      OrFourAligned(lower);
      upper
    else
      upper
  }

  /** Device memory: 4-byte words by byte address. */
  type Heap = map<Word64, Word32>

  /** Both halves of the object at `lower` are mapped. */
  predicate Mapped(w: Heap, lower: Word64) {
    lower in w && UpperAddress(lower) in w
  }

  /** `memory_load`: the two halves read one after the other and joined, low half first. */
  function Load(w: Heap, lower: Word64, upper: Word64): (r: Word64)
    requires lower in w && upper in w
    ensures Low(r) == w[lower] && High(r) == w[upper]
  {
    Join(w[lower], w[upper])
  }

  /**
   * The memory after `memory_store`'s two stores: the low half of `desired`
   * at `lower`, then the high half at `upper`.
   */
  function StoreWords(w: Heap, lower: Word64, upper: Word64, desired: Word64): (r: Heap)
    ensures r.Keys == w.Keys + {lower, upper}
    ensures r[upper] == High(desired)
    ensures lower != upper ==> r[lower] == Low(desired)
  {
    w[lower := Low(desired)][upper := High(desired)]
  }

  /** Every other word keeps its value. */
  lemma {:induction false} StoreWordsFrame(w: Heap, lower: Word64, upper: Word64, desired: Word64, a: Word64)
    requires a in w && a != lower && a != upper
    ensures StoreWords(w, lower, upper, desired)[a] == w[a]
  {
  }

  /** A store to words that are already mapped maps no new word. */
  lemma {:induction false} StoreKeys(w: Heap, lower: Word64, upper: Word64, desired: Word64)
    requires lower in w && upper in w
    ensures StoreWords(w, lower, upper, desired).Keys == w.Keys
  {
  }

  /**
   * A store reads back as the stored value exactly when the two halves are
   * different words, or the value's halves happen to coincide.
   */
  lemma {:induction false} StoreReadsBack(w: Heap, lower: Word64, upper: Word64, desired: Word64)
    ensures Load(StoreWords(w, lower, upper, desired), lower, upper) == desired
            <==> lower != upper || Low(desired) == High(desired)
  {
    var r := StoreWords(w, lower, upper, desired);
    HalvesOfJoin(r[lower], r[upper]);
    if lower == upper && Load(r, lower, upper) == desired {
      assert Low(desired) == r[lower] == High(desired);
    }
  }

  /** The 64-bit value of the object at `p`: its two halves, loaded and joined. */
  function Value(w: Heap, p: Word64): Word64
    requires Mapped(w, p)
  {
    Load(w, p, UpperAddress(p))
  }

  /**
   * A store to the 8-aligned object `obj` gives it the stored value and
   * leaves every other 8-aligned object's value alone: their words do not
   * overlap.
   */
  lemma {:induction false} StoreValue(w: Heap, obj: Word64, desired: Word64, q: Word64)
    requires obj % 8 == 0 && q % 8 == 0 && Mapped(w, q)
    ensures Mapped(StoreWords(w, obj, UpperAddress(obj), desired), q)
    ensures Value(StoreWords(w, obj, UpperAddress(obj), desired), q)
            == if q == obj then desired else Value(w, q)
  {
    var upper := UpperAddress(obj);
    if q == obj {
      StoreReadsBack(w, obj, upper, desired);
    } else {
      StoreWordsFrame(w, obj, upper, desired, q);
      StoreWordsFrame(w, obj, upper, desired, UpperAddress(q));
    }
  }

  /** The memory of the device, as mutable state. */
  class Memory {
    var words: Heap

    constructor (initial: Heap)
      ensures words == initial
    {
      words := initial;
    }

    /**
     * `memory_store`: stores both halves, then spins until the value reads
     * back. With two different words the first read-back succeeds, so the
     * loop runs once.
     */
    method Store(lower: Word64, upper: Word64, desired: Word64)
      requires lower != upper
      modifies this
      ensures words == StoreWords(old(words), lower, upper, desired)
      ensures Load(words, lower, upper) == desired
    {
      words := words[lower := Low(desired)];
      words := words[upper := High(desired)];
      var verified := false;
      while !verified
        invariant words == StoreWords(old(words), lower, upper, desired)
        decreases if verified then 0 else 1
      {
        verified := desired == Load(words, lower, upper);
      }
    }

    /**
     * The device-memory `__metal_atomic64_store_explicit`: a plain 64-bit
     * store `object[0] = desired`. It takes no lock (the acquire and release
     * are comments only) and does not touch the lock table.
     */
    method DeviceStore(obj: Word64, desired: Word64)
      requires obj % 8 == 0
      modifies this
      ensures words == StoreWords(old(words), obj, UpperAddress(obj), desired)
      ensures Load(words, obj, UpperAddress(obj)) == desired
    {
      words := StoreWords(words, obj, UpperAddress(obj), desired);
      StoreReadsBack(old(words), obj, UpperAddress(obj), desired);
    }
  }
}
