# metal-float64 in Dafny

A verified model of two parts of metal-float64.

**64-bit atomics emulated with 32-bit locks.** This is the Metal shader source embedded in
`GenerateLibrary.swift`. The model covers:
- the rounding up of the lock buffer's address to a multiple of its 2^18-byte size;
- `get_lock`'s hash of an object's address to one of 65536 lock words;
- the lock-word protocol `try_acquire_lock` / `release_lock`;
- the split 64-bit object: two 32-bit words, the upper one found by `get_upper_address`, read by
  `memory_load` and written by `memory_store`;
- the unlocked device-memory `__metal_atomic64_store_explicit`;
- `__metal_atomic64_fetch_add_explicit`, run by one SIMD group in lockstep.

The group is modelled as rounds. In each round:
1. every pending lane tries its lock;
2. each winner runs its load-add-store critical section;
3. each winner releases its lock and marks itself done;
4. the loop stops once the ballot of `done` equals the active mask.

**The swizzle vectors.** `vec<T, 1>`, `vec<T, 2>` and `vec<T, 3>` come from `ExtendedVector.h`; the
`float` `vec2` and `vec3` come from `Vector.h`. Each vector is one component array shared by every
member of its union. Each member is a *view*: the list of component indices it names (`Scalar`,
`Pair`, `Triple`, `Quad`). Reading a view converts it. Assigning a value of the element or vector
type to a view writes the components it names. Assigning one view to a view of the same struct type
(`a.z = b.z`, `a.yz = b.yz`) is different: C++ picks the struct's implicit copy assignment, which
copies the struct's leading storage, components 0 .. k - 1 (see Findings).

The model states four things about the members:
- which members each vector declares, as predicates following the swizzle-group macros;
- that these are exactly the views the macros declare, described independently of the macros;
- that names are unique;
- that the position and colour letters (and, in `vec2`, the texture letters) alias one another.

Modules:
- `Bits`, `Words`: bitwise operations and 32/64-bit words as bounded naturals.
- `Locks`: the lock table, the hash, and the lock-word methods.
- `Cells`: the split 64-bit object and the `Memory` class.
- `FetchAddSpec`: what a sequence of critical sections does to the object values.
- `Rounds`: the facts about one round (winners, ballot, pending count).
- `FetchAdd`: the imperative lockstep loop, proved against `FetchAddSpec`.
- `Swizzles`: views, reads and writes, and the `Vec` class with its constructors and operators.
- `ExtendedVector`, `FloatVector`: the member tables of the two headers.

Three behaviours of the shader that a reader might not expect, all modelled as written:
- **fetch_add's result.** `__metal_atomic64_fetch_add_explicit` returns the new value
  `previous + operand` (GenerateLibrary.swift lines 359 and 367). Metal's own
  `atomic_fetch_add_explicit` returns the value before the addition.
- **memory_store's read-back.** On a mismatch, `memory_store`'s loop only reads the value again and
  never writes it again; its comment says the mismatch branch never happens (line 254).
- **The device store.** The device `__metal_atomic64_store_explicit` takes no lock: its
  `// acquire lock` and `// release lock` are comments (lines 336 and 338).

## Model

| member | source | states |
|---|---|---|
| Locks.AlignLockBase | Sources/MetalAtomic64/src/GenerateLibrary.swift:87-99 | `None` exactly when `gpuAddress + 2^18 - 1` overflows `UInt64` (Swift traps); otherwise a multiple of the 2^18-byte table size in `[gpuAddress, gpuAddress + 2^18)` |
| Locks.Hash | Sources/MetalAtomic64/src/GenerateLibrary.swift:203-204 | the hash is a byte offset below the table size 2^18 |
| Locks.HashAligned | Sources/MetalAtomic64/src/GenerateLibrary.swift:199-204 | for an 8-aligned object the hash is a multiple of 4, so it selects a whole lock word |
| Locks.LockAddress | Sources/MetalAtomic64/src/GenerateLibrary.swift:201-211 | for an aligned base and an 8-aligned object, `base | hash` equals `base + 4 * slot` |
| Locks.Slot | Sources/MetalAtomic64/src/GenerateLibrary.swift:204 | the slot index is below 65536, the number of lock words in the table |
| Locks.LockWordInBuffer | Sources/MetalAtomic64/src/GenerateLibrary.swift:88-99 | the whole 4-byte lock word lies inside the `2 * 2^18` bytes that were allocated |
| Locks.LockOffsetIndependence | Sources/MetalAtomic64/src/GenerateLibrary.swift:201-207 | the lock offset depends only on the low 32 address bits, not on the high bits or on where the table is |
| Locks.SharedLock | Sources/MetalAtomic64/src/GenerateLibrary.swift:201-207 | two 8-aligned objects share a lock exactly when bits 3..18 of their addresses agree |
| Locks.SignExtensionHarmless | Sources/MetalAtomic64/src/GenerateLibrary.swift:206-207 | OR-ing the hash sign-extended gives the same lock as OR-ing it zero-extended, because the hash never has bit 31 set |
| Locks.TryAcquireLock | Sources/MetalAtomic64/src/GenerateLibrary.swift:213-218 | succeeds exactly when the word was 0 and the exchange did not fail spuriously; on success the word is 1; on failure nothing changes |
| Locks.ReleaseLock | Sources/MetalAtomic64/src/GenerateLibrary.swift:220-222 | stores 0 into the lock word without any check; every other word is unchanged |
| Words.Low | Sources/MetalAtomic64/src/GenerateLibrary.swift:244 | element 0 of `as_type<uint2>(v)`: the 32-bit value congruent to `v` mod 2^32 |
| Words.High | Sources/MetalAtomic64/src/GenerateLibrary.swift:245 | element 1 of `as_type<uint2>(v)`: the 32-bit `h` with `h * 2^32 <= v < (h + 1) * 2^32` |
| Words.Join | Sources/MetalAtomic64/src/GenerateLibrary.swift:239 | `as_type<ulong>(uint2(lo, hi))`: the 64-bit value whose low half is `lo` and high half is `hi` |
| Cells.UpperAddress | Sources/MetalAtomic64/src/GenerateLibrary.swift:228-233 | the high half is kept; for an 8-aligned address the result is `lower + 4` |
| Cells.Load | Sources/MetalAtomic64/src/GenerateLibrary.swift:236-240 | `memory_load` joins the two words, low half first: the result's low half is the word at `lower`, its high half the word at `upper` |
| Cells.StoreWords | Sources/MetalAtomic64/src/GenerateLibrary.swift:243-247 | the high half lands at `upper`, the low half at `lower` when the two differ, and exactly these words become mapped |
| Cells.StoreWordsFrame | Sources/MetalAtomic64/src/GenerateLibrary.swift:243-247 | a store leaves every other memory word unchanged |
| Cells.StoreReadsBack | Sources/MetalAtomic64/src/GenerateLibrary.swift:236-251 | a store followed by a load gives back the stored value exactly when the two words differ or the value's halves coincide |
| Cells.StoreValue | Sources/MetalAtomic64/src/GenerateLibrary.swift:228-247 | storing into one 8-aligned object sets its 64-bit value and leaves every other 8-aligned object's value alone |
| Cells.Memory.Store | Sources/MetalAtomic64/src/GenerateLibrary.swift:243-258 | after the two stores and the read-back loop the memory is `StoreWords` of the old memory, and a load gives `desired` |
| Cells.Memory.DeviceStore | Sources/MetalAtomic64/src/GenerateLibrary.swift:330-339 | the device store writes both halves with no lock, and the object then reads as `desired` |
| FetchAddSpec.AddStep | Sources/MetalAtomic64/src/GenerateLibrary.swift:358-360 | one critical section gives the lane's object `previous + operand` mod 2^64 and leaves every other object's value alone |
| FetchAddSpec.ApplyAll | Sources/MetalAtomic64/src/GenerateLibrary.swift:355-366 | running the critical sections of a sequence of lanes one after the other maps the same objects and keeps every lane's object mapped |
| FetchAddSpec.TotalFor | Tests/MetalFloat64Tests/AtomicTests.swift:157-163 | the reference fold's total for one object: 0 when no lane aims at it, and at least each operand aimed at it |
| FetchAddSpec.ApplyAllValue | Sources/MetalAtomic64/src/GenerateLibrary.swift:355-366 | after any sequence of critical sections an object holds its old value plus the operands those lanes added to it, mod 2^64 |
| FetchAddSpec.SumForSameSet | Sources/MetalAtomic64/src/GenerateLibrary.swift:355-366 | the summed operands do not depend on the order the critical sections ran in |
| FetchAddSpec.OrderedSum | Sources/MetalAtomic64/src/GenerateLibrary.swift:355-366 | any order that runs every lane once sums to the total of the operands aimed at the object |
| FetchAddSpec.GroupSum | Tests/MetalFloat64Tests/AtomicTests.swift:148-166 | running every lane once, in any order, leaves each object at its initial value plus the sum of its operands mod 2^64, as the reference fold computes |
| Rounds.HeldSlotsIff | Sources/MetalAtomic64/src/GenerateLibrary.swift:356-357 | a lock is held after the acquire step exactly when some winning lane's object hashes to it |
| Rounds.WinnersExclusive | Sources/MetalAtomic64/src/GenerateLibrary.swift:357-361 | two different winners of one round never hold the same lock |
| Rounds.AcquireProgress | Sources/MetalAtomic64/src/GenerateLibrary.swift:355-363 | while some lane is not done, some lane wins its lock in that round |
| Rounds.Winners | Sources/MetalAtomic64/src/GenerateLibrary.swift:357-362 | the winners of a round, each below the group size, each a winner, every winner present, in strictly increasing lane order |
| Rounds.VisitedAfterRound | Sources/MetalAtomic64/src/GenerateLibrary.swift:356-365 | after a round, the lanes whose critical sections have run are exactly the lanes marked done |
| Rounds.Ballot | Sources/MetalAtomic64/src/GenerateLibrary.swift:365 | `simd_ballot` of the lanes' votes is a mask below `2^lanes` |
| Rounds.BallotBit | Sources/MetalAtomic64/src/GenerateLibrary.swift:365 | bit `i` of the ballot is lane `i`'s vote |
| Rounds.BallotEqual | Sources/MetalAtomic64/src/GenerateLibrary.swift:365 | two ballots of the same group are equal exactly when every lane voted the same |
| Rounds.BallotAllDone | Sources/MetalAtomic64/src/GenerateLibrary.swift:351-355 | the loop test `active != done_active` fails exactly when every lane is done |
| Rounds.BallotNone | Sources/MetalAtomic64/src/GenerateLibrary.swift:352 | `simd_vote(0)` is the empty mask |
| Rounds.PendingDecreases | Sources/MetalAtomic64/src/GenerateLibrary.swift:355-366 | a round that finishes a lane and un-finishes none reduces the pending count |
| Rounds.PendingNone | Sources/MetalAtomic64/src/GenerateLibrary.swift:350 | at entry every lane is pending |
| FetchAdd.OutputIsPreviousPlusOperand | Sources/MetalAtomic64/src/GenerateLibrary.swift:358-359 | each lane's output is the value its object held just before its critical section, plus its operand, mod 2^64 |
| FetchAdd.CriticalStep | Sources/MetalAtomic64/src/GenerateLibrary.swift:358-360 | one load-add-store keeps the memory equal to the specification's values, and the stored value is the specification's |
| FetchAdd.KeptAfterStore | Sources/MetalAtomic64/src/GenerateLibrary.swift:360 | a lane's store keeps every word that belongs to no lane's object |
| FetchAdd.AcquirePhase | Sources/MetalAtomic64/src/GenerateLibrary.swift:356-357 | a lane wins exactly when it is not done and no earlier lane took its lock; exactly the winners' lock words become 1 |
| FetchAdd.CriticalSection | Sources/MetalAtomic64/src/GenerateLibrary.swift:357-362 | the winner stores `previous + operand`, records it as its output, and the memory agrees with the specification |
| FetchAdd.CriticalPhase | Sources/MetalAtomic64/src/GenerateLibrary.swift:357-362 | the winners' critical sections run in lane order, extend the run order by the winners, and touch no word outside the lanes' objects |
| FetchAdd.ReleasePhase | Sources/MetalAtomic64/src/GenerateLibrary.swift:361-362 | each winner releases its lock and becomes done; every held lock is 0 afterwards |
| FetchAdd.Round | Sources/MetalAtomic64/src/GenerateLibrary.swift:355-366 | one loop pass returns every lock to its old value, strictly reduces the pending count and keeps memory and outputs consistent |
| FetchAdd.FinalValues | Sources/MetalAtomic64/src/GenerateLibrary.swift:342-367 | once every lane has run, each object holds its old value plus all the operands aimed at it, mod 2^64 |
| FetchAdd.FetchAddGroup | Sources/MetalAtomic64/src/GenerateLibrary.swift:342-368 | the loop ends after at most one round per lane; every lane ran exactly once; outputs are the new values; every object holds its old value plus its operands; the locks and all other words are unchanged |
| Swizzles.Read | Sources/MetalFloat64/include/MetalFloat64/ExtendedVector.h:45-117 | reading a view yields the components it names, in order: `data[I]` for a scalar, `(data[A], data[B])` for a pair, and so on; `Vector.h` converts the same way (lines 19-22, 51-54, 87-90) |
| Swizzles.Written | Sources/MetalFloat64/include/MetalFloat64/ExtendedVector.h:76-113 | assigning a distinct-index view sets `data[A] = v.x`, `data[B] = v.y` (and C, D), leaves the other components unchanged, and reads back `v`; `Vector.h` assigns the same way (lines 47-50, 83-86) |
| Swizzles.WriteBackUnchanged | Sources/MetalFloat64/include/MetalFloat64/ExtendedVector.h:76-83 | assigning a view what it reads changes nothing |
| Swizzles.WriteTwice | Sources/MetalFloat64/include/MetalFloat64/ExtendedVector.h:76-79 | a second assignment to the same view overwrites the first completely |
| Swizzles.CopyAssigned | Sources/MetalFloat64/include/MetalFloat64/ExtendedVector.h:33-84 | the implicit copy assignment of a swizzle struct: component `j` becomes `b[j]` for `j` below the view's width and keeps `a[j]` otherwise, whichever components the view names |
| Swizzles.CopyMatchesPrefixViews | Sources/MetalFloat64/include/MetalFloat64/ExtendedVector.h:69-83 | for `x`, `xy`, `xyz` (views naming components 0, 1, ... in order) the copy equals assigning what the other view reads |
| Swizzles.CopyDiffersFromAssign | Sources/MetalFloat64/include/MetalFloat64/ExtendedVector.h:40-48 | `a.z = b.z` on `(1, 2, 3)` and `(4, 5, 6)` gives `(4, 2, 3)`, not `(1, 2, 6)`; `a.yz = b.yz` gives `(4, 5, 3)`, not `(1, 5, 6)` |
| Swizzles.ScalarAlias | Sources/MetalFloat64/include/MetalFloat64/ExtendedVector.h:40-48 | after an assignment to component `I`, reading it gives the value and every other component is unchanged |
| Swizzles.SpellingDetermines | Sources/MetalFloat64/include/MetalFloat64/ExtendedVector.h:122-149 | a member name spelled in the component letters names one view only |
| Swizzles.Vec.SetComponent | Sources/MetalFloat64/include/MetalFloat64/ExtendedVector.h:40-44 | `operator=` stores `x` into component `I` only and yields that component, which now holds `x`; the `float` `scalar_swizzle<I>` of `Vector.h` (lines 14-18) is the same |
| Swizzles.Vec.Assign | Sources/MetalFloat64/include/MetalFloat64/ExtendedVector.h:76-113 | `operator=` writes the named components in order, leaves the rest alone, and yields the vector of assigned values; `Vector.h` (lines 47-50, 83-86) is the same |
| Swizzles.Vec.CopyAssign | Sources/MetalFloat64/include/MetalFloat64/ExtendedVector.h:69-79 | `a.v = b.v` for views of the same struct type copies `b`'s first `k` components into `a` for a view of width `k`; also when `a` and `b` are the same vector |
| Swizzles.Vec.PostStep | Sources/MetalFloat64/include/MetalFloat64/ExtendedVector.h:49-60 | postfix `++`/`--` yield the old component and store the stepped one, changing nothing else; `Vector.h` (lines 23-26, 31-34) is the same |
| Swizzles.Vec.PreStep | Sources/MetalFloat64/include/MetalFloat64/ExtendedVector.h:53-64 | prefix `++`/`--` store the stepped component and yield it, changing nothing else; `Vector.h` (lines 27-30, 35-38) is the same |
| Swizzles.Vec.FromOne | Sources/MetalFloat64/include/MetalFloat64/ExtendedVector.h:175-178 | `vec<T, 1>(a)` holds `[a]` |
| Swizzles.Vec.Fill2 | Sources/MetalFloat64/include/MetalFloat64/ExtendedVector.h:202-205 | `vec<T, 2>(all)` holds `[all, all]`; so does `vec2(all)` of `Vector.h` (lines 68-71) |
| Swizzles.Vec.FromTwo | Sources/MetalFloat64/include/MetalFloat64/ExtendedVector.h:206-210 | `vec<T, 2>(a, b)` holds `[a, b]`; so does `vec2(a, b)` of `Vector.h` (lines 72-76) |
| Swizzles.Vec.Fill3 | Sources/MetalFloat64/include/MetalFloat64/ExtendedVector.h:235-238 | `vec<T, 3>(all)` holds `[all, all, all]`; so does `vec3(all)` of `Vector.h` (lines 107-110) |
| Swizzles.Vec.FromThree | Sources/MetalFloat64/include/MetalFloat64/ExtendedVector.h:239-244 | `vec<T, 3>(a, b, c)` holds `[a, b, c]`; so does `vec3(a, b, c)` of `Vector.h` (lines 111-116) |
| ExtendedVector.Group1 | Sources/MetalFloat64/include/MetalFloat64/ExtendedVector.h:122-126 | the members `VEC1_SWIZZLE_GROUP(i, x, r)` declares: the 1- to 4-fold repetitions of `i` in both letters |
| ExtendedVector.Group2 | Sources/MetalFloat64/include/MetalFloat64/ExtendedVector.h:128-139 | the members `VEC2_SWIZZLE_GROUP(i, j, x, y, r, g)` declares, one disjunct per declaration |
| ExtendedVector.Group3 | Sources/MetalFloat64/include/MetalFloat64/ExtendedVector.h:143-149 | the twelve members `VEC3_SWIZZLE_GROUP` declares |
| ExtendedVector.Vec1Member | Sources/MetalFloat64/include/MetalFloat64/ExtendedVector.h:168-171 | the union members of `vec<T, 1>` |
| ExtendedVector.Vec2Member | Sources/MetalFloat64/include/MetalFloat64/ExtendedVector.h:192-198 | the union members of `vec<T, 2>` |
| ExtendedVector.Vec3Member | Sources/MetalFloat64/include/MetalFloat64/ExtendedVector.h:225-231 | the union members of `vec<T, 3>` |
| ExtendedVector.Group1Spells | Sources/MetalFloat64/include/MetalFloat64/ExtendedVector.h:122-126 | every member `VEC1_SWIZZLE_GROUP(i, ..)` declares is a view of component `i` alone, and its name spells it |
| ExtendedVector.Group2Spells | Sources/MetalFloat64/include/MetalFloat64/ExtendedVector.h:128-139 | every member `VEC2_SWIZZLE_GROUP(i, j, ..)` declares uses components `i` and `j` only, and its name spells it |
| ExtendedVector.Group3Spells | Sources/MetalFloat64/include/MetalFloat64/ExtendedVector.h:143-149 | every member `VEC3_SWIZZLE_GROUP` declares is an order of the three components, and its name spells it |
| ExtendedVector.Group1Has | Sources/MetalFloat64/include/MetalFloat64/ExtendedVector.h:122-126 | every spelled view of component `i` alone is declared by `VEC1_SWIZZLE_GROUP(i, ..)` |
| ExtendedVector.Group2Has | Sources/MetalFloat64/include/MetalFloat64/ExtendedVector.h:128-139 | every spelled view of `i` and `j` that starts with `i` and uses `j` is declared by `VEC2_SWIZZLE_GROUP(i, j, ..)` |
| ExtendedVector.Group3Has | Sources/MetalFloat64/include/MetalFloat64/ExtendedVector.h:143-149 | every spelled order of the three components is declared by `VEC3_SWIZZLE_GROUP` |
| ExtendedVector.Vec1Exactly | Sources/MetalFloat64/include/MetalFloat64/ExtendedVector.h:168-171 | `vec<T, 1>` declares exactly the views of component 0 of each length, spelled with `x` or `r` |
| ExtendedVector.Group1In2 | Sources/MetalFloat64/include/MetalFloat64/ExtendedVector.h:192-196 | the `y`/`g` and `x`/`r` groups belong to `vec<T, 2>` |
| ExtendedVector.Group2In2 | Sources/MetalFloat64/include/MetalFloat64/ExtendedVector.h:195-196 | both two-component groups belong to `vec<T, 2>` |
| ExtendedVector.Vec2Sound | Sources/MetalFloat64/include/MetalFloat64/ExtendedVector.h:192-198 | every member of `vec<T, 2>` is a spelled view of components 0 and 1 |
| ExtendedVector.Vec2Complete | Sources/MetalFloat64/include/MetalFloat64/ExtendedVector.h:192-198 | every spelled view of components 0 and 1, of any length up to four, is a member of `vec<T, 2>` |
| ExtendedVector.Vec2Exactly | Sources/MetalFloat64/include/MetalFloat64/ExtendedVector.h:192-198 | both directions: the members of `vec<T, 2>` are exactly the spelled views of its two components |
| ExtendedVector.Group1In3 | Sources/MetalFloat64/include/MetalFloat64/ExtendedVector.h:225-226 | the three one-component groups belong to `vec<T, 3>` |
| ExtendedVector.Group2In3 | Sources/MetalFloat64/include/MetalFloat64/ExtendedVector.h:225-230 | the six two-component groups belong to `vec<T, 3>` |
| ExtendedVector.Vec3Sound | Sources/MetalFloat64/include/MetalFloat64/ExtendedVector.h:225-231 | every member of `vec<T, 3>` is a spelled view of its three components; any four-letter view uses at most two components |
| ExtendedVector.Vec3Complete | Sources/MetalFloat64/include/MetalFloat64/ExtendedVector.h:225-231 | every spelled view of one to three of its components is a member, and so is every four-letter view over at most two |
| ExtendedVector.Vec3Exactly | Sources/MetalFloat64/include/MetalFloat64/ExtendedVector.h:225-231 | both directions of the membership description of `vec<T, 3>` |
| ExtendedVector.NamesUnique | Sources/MetalFloat64/include/MetalFloat64/ExtendedVector.h:225-231 | no two members of `vec<T, 3>` share a name |
| ExtendedVector.MembersNest | Sources/MetalFloat64/include/MetalFloat64/ExtendedVector.h:193-225 | the members of `vec<T, 1>` are members of `vec<T, 2>`, and those are members of `vec<T, 3>` |
| ExtendedVector.ComponentAliases | Sources/MetalFloat64/include/MetalFloat64/ExtendedVector.h:122-123 | `x` and `r`, `y` and `g`, `z` and `b` each name the same single component, and no other view |
| ExtendedVector.AliasedWrite | Sources/MetalFloat64/include/MetalFloat64/ExtendedVector.h:122-123 | a value assigned through `x` (or `y`, `z`) is what `r` (or `g`, `b`) reads |
| ExtendedVector.Resolves | Sources/MetalFloat64/include/MetalFloat64/ExtendedVector.h:225-231 | a declared name resolves to one view |
| ExtendedVector.PermutedWrite | Sources/MetalFloat64/include/MetalFloat64/ExtendedVector.h:143-149 | assigning `vals` through any of the six orders and reading `xyz` gives `vals` permuted by that order |
| ExtendedVector.ZyxReverses | Sources/MetalFloat64/include/MetalFloat64/ExtendedVector.h:149 | assigning through `zyx` and reading `xyz` gives the values reversed |
| FloatVector.Vec2Member | Sources/MetalFloat64/include/MetalFloat64/Vector.h:57-66 | the union members of `vec2` |
| FloatVector.Vec3Member | Sources/MetalFloat64/include/MetalFloat64/Vector.h:93-105 | the union members of `vec3` |
| FloatVector.Vec2Sound | Sources/MetalFloat64/include/MetalFloat64/Vector.h:57-66 | every member of `vec2` names components 0 and 1 and spells them in position, colour or texture letters |
| FloatVector.Vec3Sound | Sources/MetalFloat64/include/MetalFloat64/Vector.h:93-105 | every member of `vec3` names components of a three-component vector and spells them |
| FloatVector.Vec2NamesUnique | Sources/MetalFloat64/include/MetalFloat64/Vector.h:59-66 | no two members of `vec2` share a name |
| FloatVector.Vec3NamesUnique | Sources/MetalFloat64/include/MetalFloat64/Vector.h:95-105 | no two members of `vec3` share a name |
| FloatVector.Vec2Aliases | Sources/MetalFloat64/include/MetalFloat64/Vector.h:62-63 | `x`, `r` and `s` name component 0 only, and `y`, `g` and `t` name component 1 only |
| FloatVector.Vec3Aliases | Sources/MetalFloat64/include/MetalFloat64/Vector.h:98-100 | `x`/`r`, `y`/`g` and `z`/`b` name components 0, 1 and 2 only; `vec3` has no texture letters |
| FloatVector.Vec2PairsRepeat | Sources/MetalFloat64/include/MetalFloat64/Vector.h:64-65 | the only two-component members of `vec2` are `xx` and `yy`; `vec2` has no `xy` or `yx` |
| FloatVector.RepeatedRead | Sources/MetalFloat64/include/MetalFloat64/Vector.h:51-54 | reading `xx` or `yy` gives one component twice |
| FloatVector.ZyxReadsReversed | Sources/MetalFloat64/include/MetalFloat64/Vector.h:103-104 | `zyx` reads the components of `xyz` backwards |
| FloatVector.XyzRoundTrip | Sources/MetalFloat64/include/MetalFloat64/Vector.h:83-90 | assigning through `xyz` reads back; assigning what `xyz` reads changes nothing; assigning through `zyx` and reading `xyz` reverses |
| FloatVector.OverlappingPairs | Sources/MetalFloat64/include/MetalFloat64/Vector.h:101-102 | `xy` and `yz` share `y`: a value assigned through one is read through the other, and the third component is unchanged |

## Left out

- The Metal host API: `makeBuffer`, `makeLibrary`, `makeDynamicLibrary`, compile options and the retain-count bridge to C. These are foreign calls. `AlignLockBase` receives the buffer's GPU address as a parameter.
- Real concurrency and memory ordering: relaxed atomics, other SIMD groups, and hardware scheduling. One group is modelled, and within a round the lanes' lock attempts and critical sections are taken in lane order.
- The weak compare-and-swap's spurious failure. `TryAcquireLock` has a `spurious` flag, but the group loop uses a strong exchange, because termination needs one.
- FetchAdd.FetchAddGroup: requires every lane's lock to be free at entry. The zero-initialised buffer gives this; with no other group in the model, nothing else would hold a lock.
- FetchAdd.FetchAddGroup: `output` starts as 0 in the model; in the shader it is uninitialised, and no lane returns it before writing it.
- The `metal_float64::increment` calls, whose body is not visible.
- The threadgroup-memory `__metal_atomic64_store_explicit`, which is made of barriers.
- The typed operation groups and their enums, which are only declared. The `type` argument of fetch_add is accepted and never read.
- Atomic.h is not part of this model.
- `__base_vec`, `__metal_float64_common_vec` and the renaming macros. These are compile-time type selection.
- Swizzles.Vec.Assign: requires the view's indices to be distinct. Assigning through `xx`, `yy` and the other repeated-index views is not modelled, because the order in which C++ evaluates the constructor's arguments leaves the stored result unspecified.
- Swizzles.Vec.Assign: takes the assigned vector by value. When the argument is the vector itself (`v.yx = v`, `v.zyx = v`), `const vec_type& vec` aliases the storage being written, and for the same unspecified evaluation order the source gives `(d0, d0)` or `(d1, d1)`, never the swap; the model's result for that case is not the source's.
- `Quad` views and `vec4_swizzle`'s conversion and assignment: `vec<T, 4>` is the unspecialised primary template, with no constructor and no `x`, `y`, `z`, `w`, so the four-letter members of `vec<T, 2>` and `vec<T, 3>` are declared but their conversion and assignment cannot be instantiated. Reads and writes of `Quad` views model code that does not compile. The 4-wide swizzles that the header's TODO (line 120) intends are missing.
- Swizzles.Vec.CopyAssign: a union is as large as its largest member, so a four-wide struct's copy can reach past a vector's `N` components into padding; the model copies at most `N` components.
- Swizzles.Vec.PostStep: `++`/`--` take the element type's step as a function parameter. Floating-point arithmetic is not modelled.
- The uninitialised constructor `vec() {}`, whose components are indeterminate.
- The fact that each swizzle struct reaches past its own `_data[1]` or `_data[2]` into the union's storage. Views index the one shared component array directly.
- Cells.Memory.Store: requires the two words to be different. With a shared word, the read-back loop of `memory_store` would spin forever on values whose halves differ (`Cells.StoreReadsBack`).
- Rounds.Ballot: the ballot is an unbounded number. Group width is not limited to 32 lanes.
- Which name a member access resolves to is a membership predicate on (name, view) pairs, not a lookup function.
- The tests, build script, package manifest and macro headers.

## Findings

| source | as written | input that shows it | evidently intended | confidence | as-written member | corrected member |
|---|---|---|---|---|---|---|
| Sources/MetalFloat64/include/MetalFloat64/ExtendedVector.h:33-48 | `a.z = b.z` between two `scalar_swizzle<T, 2>` members resolves to the implicit copy assignment, which copies `_data[0]`, i.e. component 0 of `b` into component 0 of `a` | `a = (1, 2, 3)`, `b = (4, 5, 6)`: `a.z = b.z` leaves `a = (4, 2, 3)` (`Swizzles.CopyDiffersFromAssign`) | `a = (1, 2, 6)`: component 2 gets `b.z` | not executed; follows from C++ overload resolution | Swizzles.CopyAssigned | Swizzles.Vec.SetComponent |
| Sources/MetalFloat64/include/MetalFloat64/ExtendedVector.h:69-84 | `a.yz = b.yz` between two `vec2_swizzle<T, 1, 2>` members copies `_data[0 .. 2)`, i.e. components 0 and 1 | `a = (1, 2, 3)`, `b = (4, 5, 6)`: `a.yz = b.yz` leaves `a = (4, 5, 3)` (`Swizzles.CopyDiffersFromAssign`) | `a = (1, 5, 6)` | not executed; follows from C++ overload resolution | Swizzles.CopyAssigned | Swizzles.Vec.Assign |
