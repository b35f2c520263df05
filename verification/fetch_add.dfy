/**
 * `__metal_atomic64_fetch_add_explicit` executed by one SIMD group whose
 * lanes run in lockstep. Each round, every lane that is not done tries its
 * lock; the winners load their object, store the sum and release the lock,
 * then mark themselves done; the group leaves the loop once the ballot of
 * `done` equals the active mask. The lanes' lock attempts and critical
 * sections within a round are taken in lane order.
 */
module FetchAdd {
  import opened Words
  import opened Locks
  import opened Cells
  import opened FetchAddSpec
  import opened Rounds

  /** Every lane's object is 8-aligned and both of its words are mapped. */
  predicate LanesFit(w: Heap, lanes: seq<Lane>) {
    forall i :: 0 <= i < |lanes| ==> lanes[i].obj % 8 == 0 && Mapped(w, lanes[i].obj)
  }

  /** The values the lanes' objects hold in memory `w`. */
  function ObjectsOf(w: Heap, lanes: seq<Lane>): (r: Values)
    requires LanesFit(w, lanes)
    ensures LanesIn(r, lanes)
    ensures forall i :: 0 <= i < |lanes| ==> r[lanes[i].obj] == Value(w, lanes[i].obj)
    decreases |lanes|
  {
    if lanes == [] then map[]
    else
      var n := |lanes| - 1;
      assert LanesFit(w, lanes[..n]) by {
        forall i | 0 <= i < n ensures lanes[..n][i] == lanes[i] {}
      }
      ObjectsOf(w, lanes[..n])[lanes[n].obj := Value(w, lanes[n].obj)]
  }

  /** The word at `a` belongs to no lane's object. */
  predicate Untouched(lanes: seq<Lane>, a: Word64) {
    forall i :: 0 <= i < |lanes| ==> a != lanes[i].obj && a != UpperAddress(lanes[i].obj)
  }

  /**
   * `w` maps the same words as `w0`, and every word that belongs to no
   * lane's object has the same value.
   */
  predicate Kept(w0: Heap, w: Heap, lanes: seq<Lane>) {
    w.Keys == w0.Keys && forall a :: a in w0 && Untouched(lanes, a) ==> w[a] == w0[a]
  }

  /**
   * Every lane's object holds, in `w`, its value in `w0` plus the operands
   * of all the lanes aimed at it, modulo 2^64.
   */
  predicate Summed(w0: Heap, w: Heap, lanes: seq<Lane>)
    requires LanesFit(w0, lanes) && LanesFit(w, lanes)
  {
    forall i :: 0 <= i < |lanes| ==>
      Value(w, lanes[i].obj) == Wrap64(Value(w0, lanes[i].obj) + TotalFor(lanes, lanes[i].obj))
  }

  /** Every lane's object holds, in `w`, its value after the critical sections `order`. */
  predicate Agrees(w: Heap, lanes: seq<Lane>, vals: Values, order: seq<nat>)
    requires LanesFit(w, lanes) && LanesIn(vals, lanes) && IndicesBelow(order, |lanes|)
  {
    forall i :: 0 <= i < |lanes| ==> Value(w, lanes[i].obj) == ApplyAll(vals, lanes, order)[lanes[i].obj]
  }

  /** The output of the k-th critical section is the value it stored. */
  predicate OutputsMatch(lanes: seq<Lane>, vals: Values, order: seq<nat>, outputs: seq<Word64>)
    requires LanesIn(vals, lanes) && IndicesBelow(order, |lanes|) && |outputs| == |lanes|
  {
    forall k :: 0 <= k < |order| ==> outputs[order[k]] == ApplyAll(vals, lanes, order[..k + 1])[lanes[order[k]].obj]
  }

  /**
   * The state of the group after the critical sections `order` have run,
   * starting from the object values `vals`: no lane ran twice, the memory
   * holds the values the specification gives, and each lane that ran has
   * recorded as its output the value it stored.
   */
  predicate Consistent(w: Heap, lanes: seq<Lane>, vals: Values, order: seq<nat>, outputs: seq<Word64>) {
    |outputs| == |lanes| && LanesFit(w, lanes) && LanesIn(vals, lanes) &&
    IndicesBelow(order, |lanes|) && Distinct(order) &&
    Agrees(w, lanes, vals, order) && OutputsMatch(lanes, vals, order, outputs)
  }

  /** The lanes whose critical sections have run are exactly the lanes marked done. */
  predicate RanExactly(order: seq<nat>, done: seq<bool>) {
    forall i :: 0 <= i < |done| ==> (Visited(order, i) <==> done[i])
  }

  /**
   * What each lane returns is `previous + operand`: the value its object
   * held just before its critical section, plus its operand, modulo 2^64.
   */
  lemma {:induction false} OutputIsPreviousPlusOperand(lanes: seq<Lane>, vals: Values, order: seq<nat>, outputs: seq<Word64>, k: nat)
    requires LanesIn(vals, lanes) && IndicesBelow(order, |lanes|) && |outputs| == |lanes|
    requires OutputsMatch(lanes, vals, order, outputs) && k < |order|
    ensures IndicesBelow(order[..k], |lanes|)
    ensures outputs[order[k]]
            == Wrap64(ApplyAll(vals, lanes, order[..k])[lanes[order[k]].obj] + lanes[order[k]].operand)
  {
    assert order[..k + 1][..k] == order[..k];
  }

  /**
   * One critical section of lane `i`, as the shader runs it (load both
   * halves, add, store both halves): the stored value is the
   * specification's, and the memory goes on agreeing with it.
   */
  lemma {:induction false} CriticalStep(w: Heap, lanes: seq<Lane>, vals: Values, order: seq<nat>, i: nat, out: Word64, w': Heap)
    requires LanesFit(w, lanes) && LanesIn(vals, lanes) && IndicesBelow(order, |lanes|) && i < |lanes|
    requires Agrees(w, lanes, vals, order)
    requires out == Wrap64(Value(w, lanes[i].obj) + lanes[i].operand)
    requires w' == StoreWords(w, lanes[i].obj, UpperAddress(lanes[i].obj), out)
    ensures IndicesBelow(order + [i], |lanes|)
    ensures out == ApplyAll(vals, lanes, order + [i])[lanes[i].obj]
    ensures LanesFit(w', lanes) && Agrees(w', lanes, vals, order + [i])
  {
    var obj := lanes[i].obj;
    var order' := order + [i];
    assert order'[..|order|] == order;
    assert ApplyAll(vals, lanes, order') == AddStep(ApplyAll(vals, lanes, order), lanes[i]);
    forall k | 0 <= k < |lanes|
      ensures Mapped(w', lanes[k].obj)
      ensures Value(w', lanes[k].obj) == ApplyAll(vals, lanes, order')[lanes[k].obj]
    {
      StoreValue(w, obj, out, lanes[k].obj);
    }
  }

  /** A lane's store keeps the words that belong to no lane, and maps no new word. */
  lemma {:induction false} KeptAfterStore(w0: Heap, w: Heap, lanes: seq<Lane>, i: nat, out: Word64)
    requires i < |lanes| && LanesFit(w, lanes) && Kept(w0, w, lanes)
    ensures Kept(w0, StoreWords(w, lanes[i].obj, UpperAddress(lanes[i].obj), out), lanes)
  {
    var obj := lanes[i].obj;
    StoreKeys(w, obj, UpperAddress(obj), out);
    forall a | a in w0 && Untouched(lanes, a)
      ensures StoreWords(w, obj, UpperAddress(obj), out)[a] == w0[a]
    {
      StoreWordsFrame(w, obj, UpperAddress(obj), out, a);
    }
  }

  /** Recording one more critical section's output keeps the earlier ones. */
  lemma {:induction false} OutputsExtend(lanes: seq<Lane>, vals: Values, order: seq<nat>, outputs: seq<Word64>, i: nat, out: Word64)
    requires LanesIn(vals, lanes) && IndicesBelow(order, |lanes|) && |outputs| == |lanes| && i < |lanes|
    requires OutputsMatch(lanes, vals, order, outputs) && !Visited(order, i)
    requires IndicesBelow(order + [i], |lanes|)
    requires out == ApplyAll(vals, lanes, order + [i])[lanes[i].obj]
    ensures OutputsMatch(lanes, vals, order + [i], outputs[i := out])
  {
    var order' := order + [i];
    forall k | 0 <= k < |order'|
      ensures outputs[i := out][order'[k]] == ApplyAll(vals, lanes, order'[..k + 1])[lanes[order'[k]].obj]
    {
      if k < |order| {
        assert order'[..k + 1] == order[..k + 1];
        assert order[k] != i;
      } else {
        assert order'[..k + 1] == order';
      }
    }
  }

  /**
   * The acquire step of one round: every lane that is not done calls
   * `try_acquire_lock` on its lock, in lane order. The exchange is taken to
   * be strong; the weak exchange's spurious failure is `TryAcquireLock`'s
   * `spurious` flag.
   */
  method AcquirePhase(locks: array<Word32>, lanes: seq<Lane>, done: seq<bool>) returns (won: seq<bool>)
    requires locks.Length == LockCount && |done| == |lanes|
    requires forall i :: 0 <= i < |lanes| ==> locks[Slot(lanes[i].obj)] == 0
    modifies locks
    ensures FirstClaims(lanes, done, won)
    ensures forall s :: 0 <= s < locks.Length ==> locks[s] == if s in HeldSlots(lanes, won) then 1 else old(locks[s])
  {
    won := [];
    var i := 0;
    while i < |lanes|
      invariant 0 <= i <= |lanes| && |won| == i
      invariant forall k :: 0 <= k < i ==> (won[k] <==> !done[k] && Slot(lanes[k].obj) !in HeldSlots(lanes, won[..k]))
      invariant forall s :: 0 <= s < locks.Length ==> locks[s] == if s in HeldSlots(lanes, won) then 1 else old(locks[s])
    {
      var acquired := false;
      if !done[i] {
        acquired := TryAcquireLock(locks, Slot(lanes[i].obj), false);
      }
      ghost var before := won;
      won := won + [acquired];
      assert won[..i] == before;
      forall k | 0 <= k < i
        ensures won[..k] == before[..k]
      {
      }
      i := i + 1;
    }
  }

  /**
   * The critical sections of one round: each winner, in lane order, runs
   * `CriticalSection`. `order` records, as ghost state, which lanes'
   * critical sections have run, in the order they ran.
   */
  method CriticalPhase(mem: Memory, lanes: seq<Lane>, won: seq<bool>, outputs: seq<Word64>,
                       ghost vals: Values, ghost order: seq<nat>)
    returns (outputs': seq<Word64>, ghost order': seq<nat>)
    requires |won| == |lanes| && Consistent(mem.words, lanes, vals, order, outputs)
    requires forall i :: 0 <= i < |lanes| && won[i] ==> !Visited(order, i)
    modifies mem
    ensures order' == order + Winners(won)
    ensures Consistent(mem.words, lanes, vals, order', outputs')
    ensures Kept(old(mem.words), mem.words, lanes)
  {
    outputs', order' := outputs, order;
    var i: nat := 0;
    while i < |lanes|
      invariant i <= |lanes| && order' == order + Winners(won[..i])
      invariant Consistent(mem.words, lanes, vals, order', outputs')
      invariant forall j :: i <= j < |lanes| && won[j] ==> !Visited(order', j)
      invariant Kept(old(mem.words), mem.words, lanes)
    {
      WinnersStep(order, won, i);
      if won[i] {
        ghost var before := mem.words;
        outputs' := CriticalSection(mem, lanes, i, outputs', vals, order');
        KeptAfterStore(old(mem.words), before, lanes, i, outputs'[i]);
        order' := order' + [i];
      }
      i := i + 1;
    }
    assert won[..|lanes|] == won;
  }

  /**
   * One winner's critical section: `memory_load` of its object, the sum
   * with its operand, `memory_store` of the sum, which is also its output.
   */
  method CriticalSection(mem: Memory, lanes: seq<Lane>, i: nat, outputs: seq<Word64>,
                         ghost vals: Values, ghost order: seq<nat>)
    returns (outputs': seq<Word64>)
    requires i < |lanes| && Consistent(mem.words, lanes, vals, order, outputs) && !Visited(order, i)
    modifies mem
    ensures IndicesBelow(order + [i], |lanes|)
    ensures outputs' == outputs[i := ApplyAll(vals, lanes, order + [i])[lanes[i].obj]]
    ensures Consistent(mem.words, lanes, vals, order + [i], outputs')
    ensures mem.words == StoreWords(old(mem.words), lanes[i].obj, UpperAddress(lanes[i].obj), outputs'[i])
  {
    var lower := lanes[i].obj;
    var upper := UpperAddress(lower);
    var previous := Load(mem.words, lower, upper);
    var output := Wrap64(previous + lanes[i].operand);
    mem.Store(lower, upper, output);
    CriticalStep(old(mem.words), lanes, vals, order, i, output, mem.words);
    OutputsExtend(lanes, vals, order, outputs, i, output);
    DistinctAppend(order, i);
    outputs' := outputs[i := output];
  }

  /** The release step of one round: each winner calls `release_lock`, then sets `done`. */
  method ReleasePhase(locks: array<Word32>, lanes: seq<Lane>, won: seq<bool>, done: seq<bool>) returns (done': seq<bool>)
    requires locks.Length == LockCount && |won| == |lanes| && |done| == |lanes|
    modifies locks
    ensures |done'| == |lanes|
    ensures forall i :: 0 <= i < |lanes| ==> done'[i] == (done[i] || won[i])
    ensures forall s :: 0 <= s < locks.Length ==> locks[s] == if s in HeldSlots(lanes, won) then 0 else old(locks[s])
  {
    done' := done;
    var i := 0;
    while i < |lanes|
      invariant 0 <= i <= |lanes| && |done'| == |lanes|
      invariant forall j :: 0 <= j < |lanes| ==> done'[j] == (done[j] || (j < i && won[j]))
      invariant forall s :: 0 <= s < locks.Length ==> locks[s] == if s in HeldSlots(lanes, won[..i]) then 0 else old(locks[s])
    {
      if won[i] {
        ReleaseLock(locks, Slot(lanes[i].obj));
        done' := done'[i := true];
      }
      assert won[..i + 1][..i] == won[..i];
      i := i + 1;
    }
    assert won[..|lanes|] == won;
  }

  /**
   * One pass of the lockstep loop: acquire, critical sections, release.
   * Every lock a winner took is free again afterwards, the lanes that ran
   * their critical section are exactly the ones now done, and at least one
   * more lane is done than before.
   */
  method Round(locks: array<Word32>, mem: Memory, lanes: seq<Lane>, done: seq<bool>, outputs: seq<Word64>,
               ghost vals: Values, ghost order: seq<nat>)
    returns (done': seq<bool>, outputs': seq<Word64>, ghost order': seq<nat>)
    requires locks.Length == LockCount && |done| == |lanes|
    requires forall i :: 0 <= i < |lanes| ==> locks[Slot(lanes[i].obj)] == 0
    requires exists k :: 0 <= k < |lanes| && !done[k]
    requires Consistent(mem.words, lanes, vals, order, outputs) && RanExactly(order, done)
    modifies locks, mem
    ensures forall s :: 0 <= s < locks.Length ==> locks[s] == old(locks[s])
    ensures |done'| == |lanes| && Pending(done') < Pending(done)
    ensures Consistent(mem.words, lanes, vals, order', outputs') && RanExactly(order', done')
    ensures Kept(old(mem.words), mem.words, lanes)
  {
    ghost var k :| 0 <= k < |lanes| && !done[k];
    var won := AcquirePhase(locks, lanes, done);
    AcquireProgress(lanes, done, won, k);
    ghost var winner :| 0 <= winner < |lanes| && won[winner];
    outputs', order' := CriticalPhase(mem, lanes, won, outputs, vals, order);
    ghost var w := mem.words;
    done' := ReleasePhase(locks, lanes, won, done);
    assert mem.words == w;
    VisitedAfterRound(order, won, done, done');
    forall s | 0 <= s < locks.Length
      ensures locks[s] == old(locks[s])
    {
      if s in HeldSlots(lanes, won) {
        HeldSlotsIff(lanes, won, s);
      }
    }
    PendingDecreases(done, done', winner);
  }

  /** Once every lane's critical section has run, each object holds its old value plus all operands aimed at it. */
  lemma {:induction false} FinalValues(w0: Heap, w: Heap, lanes: seq<Lane>, order: seq<nat>)
    requires LanesFit(w0, lanes) && LanesFit(w, lanes)
    requires IndicesBelow(order, |lanes|) && Distinct(order)
    requires forall i :: 0 <= i < |lanes| ==> Visited(order, i)
    requires Agrees(w, lanes, ObjectsOf(w0, lanes), order)
    ensures Summed(w0, w, lanes)
  {
    var vals := ObjectsOf(w0, lanes);
    forall i | 0 <= i < |lanes|
      ensures Value(w, lanes[i].obj) == Wrap64(Value(w0, lanes[i].obj) + TotalFor(lanes, lanes[i].obj))
    {
      var p := lanes[i].obj;
      GroupSum(vals, lanes, order, p);
      assert vals[p] == Value(w0, p);
      assert Value(w, p) == ApplyAll(vals, lanes, order)[p];
    }
  }

  /**
   * `__metal_atomic64_fetch_add_explicit` for a whole SIMD group, one
   * `Lane` per active thread. `ty` is accepted and never read. The ghost
   * `order` is the order the critical sections ran in.
   */
  method FetchAddGroup(locks: array<Word32>, mem: Memory, lanes: seq<Lane>, ty: TypeId)
    returns (outputs: seq<Word64>, rounds: nat, ghost order: seq<nat>)
    requires locks.Length == LockCount
    requires LanesFit(mem.words, lanes)
    requires forall i :: 0 <= i < |lanes| ==> locks[Slot(lanes[i].obj)] == 0
    modifies locks, mem
    ensures forall s :: 0 <= s < locks.Length ==> locks[s] == old(locks[s])
    ensures rounds <= |lanes|
    ensures forall i :: 0 <= i < |lanes| ==> Visited(order, i)
    ensures Consistent(mem.words, lanes, ObjectsOf(old(mem.words), lanes), order, outputs)
    ensures Summed(old(mem.words), mem.words, lanes)
    ensures Kept(old(mem.words), mem.words, lanes)
  {
    var done := seq(|lanes|, _ => false);
    outputs := seq(|lanes|, _ => 0);
    var active := Ballot(seq(|lanes|, _ => true));
    BallotNone(|lanes|);
    PendingNone(|lanes|);
    ghost var vals := ObjectsOf(mem.words, lanes);
    order := [];
    rounds := 0;
    while Ballot(done) != active
      invariant |done| == |lanes|
      invariant forall s :: 0 <= s < locks.Length ==> locks[s] == old(locks[s])
      invariant Consistent(mem.words, lanes, vals, order, outputs) && RanExactly(order, done)
      invariant Kept(old(mem.words), mem.words, lanes)
      invariant rounds + Pending(done) <= |lanes|
      decreases Pending(done)
    {
      BallotAllDone(done);
      done, outputs, order := Round(locks, mem, lanes, done, outputs, vals, order);
      rounds := rounds + 1;
    }
    BallotAllDone(done);
    FinalValues(old(mem.words), mem.words, lanes, order);
  }
}
