/**
 * One round of the lockstep loop in `__metal_atomic64_fetch_add_explicit`,
 * as pure facts about the lanes of a SIMD group: which lock words the
 * winners of a round hold, which lanes win, the `simd_ballot` of the
 * lanes' `done` flags, and how many lanes are still pending.
 */
module Rounds {
  import opened Bits
  import opened Locks
  import opened FetchAddSpec

  /** The lock slots held by the lanes that `won` marks, among the first `|won|` lanes. */
  function HeldSlots(lanes: seq<Lane>, won: seq<bool>): set<nat>
    requires |won| <= |lanes|
    decreases |won|
  {
    if won == [] then {}
    else
      var n := |won| - 1;
      HeldSlots(lanes, won[..n]) + (if won[n] then {Slot(lanes[n].obj)} else {})
  }

  /** A slot is held exactly when some winning lane's object hashes to it. */
  lemma {:induction false} HeldSlotsIff(lanes: seq<Lane>, won: seq<bool>, s: nat)
    requires |won| <= |lanes|
    ensures s in HeldSlots(lanes, won) <==> exists j :: 0 <= j < |won| && won[j] && Slot(lanes[j].obj) == s
    decreases |won|
  {
    if won != [] {
      var n := |won| - 1;
      HeldSlotsIff(lanes, won[..n], s);
      if s in HeldSlots(lanes, won[..n]) {
        var j :| 0 <= j < n && won[..n][j] && Slot(lanes[j].obj) == s;
        assert won[j];
      }
      if exists j :: 0 <= j < |won| && won[j] && Slot(lanes[j].obj) == s {
        var j :| 0 <= j < |won| && won[j] && Slot(lanes[j].obj) == s;
        if j < n {
          assert won[..n][j];
        }
      }
    }
  }

  /**
   * The outcome of one acquire phase in which the lanes try their locks in
   * index order and every lock starts free: a lane wins exactly when it is
   * not done and no earlier winner took its lock.
   */
  predicate FirstClaims(lanes: seq<Lane>, done: seq<bool>, won: seq<bool>) {
    |done| == |lanes| && |won| == |lanes| &&
    forall i :: 0 <= i < |lanes| ==> (won[i] <==> !done[i] && Slot(lanes[i].obj) !in HeldSlots(lanes, won[..i]))
  }

  /** Mutual exclusion: two different winners of a round never hold the same lock. */
  lemma {:induction false} WinnersExclusive(lanes: seq<Lane>, done: seq<bool>, won: seq<bool>, i: nat, j: nat)
    requires FirstClaims(lanes, done, won)
    requires j < i < |lanes| && won[i] && won[j]
    ensures Slot(lanes[i].obj) != Slot(lanes[j].obj)
  {
    assert won[..i][j];
    HeldSlotsIff(lanes, won[..i], Slot(lanes[j].obj));
  }

  /** Progress: while some lane is not done, some lane wins its lock. */
  lemma {:induction false} AcquireProgress(lanes: seq<Lane>, done: seq<bool>, won: seq<bool>, k: nat)
    requires FirstClaims(lanes, done, won) && k < |lanes| && !done[k]
    ensures exists i :: 0 <= i < |lanes| && won[i]
  {
    if !won[k] {
      HeldSlotsIff(lanes, won[..k], Slot(lanes[k].obj));
      var j :| 0 <= j < k && won[..k][j] && Slot(lanes[j].obj) == Slot(lanes[k].obj);
      assert won[j];
    }
  }

  /** The indices of the lanes that `won` marks, in increasing order. */
  function Winners(won: seq<bool>): (r: seq<nat>)
    ensures IndicesBelow(r, |won|)
    ensures forall k :: 0 <= k < |r| ==> won[r[k]]
    ensures forall i :: 0 <= i < |won| && won[i] ==> Visited(r, i)
    ensures forall j, k :: 0 <= j < k < |r| ==> r[j] < r[k]
    decreases |won|
  {
    if won == [] then []
    else
      var n := |won| - 1;
      var r := Winners(won[..n]);
      assert forall i :: 0 <= i < n && won[i] ==> won[..n][i];
      r + (if won[n] then [n] else [])
  }

  /** Looking at one more lane appends it to the winners if it won. */
  lemma {:induction false} WinnersStep(order: seq<nat>, won: seq<bool>, i: nat)
    requires i < |won|
    ensures order + Winners(won[..i + 1]) == order + Winners(won[..i]) + (if won[i] then [i] else [])
  {
    assert won[..i + 1][..i] == won[..i];
    var w := Winners(won[..i]);
    var t: seq<nat> := if won[i] then [i] else [];
    assert Winners(won[..i + 1]) == w + t;
    assert order + (w + t) == order + w + t;
  }

  /**
   * After a round, the lanes whose critical sections have run are exactly
   * the lanes that are done: the earlier ones and this round's winners.
   */
  lemma {:induction false} VisitedAfterRound(order: seq<nat>, won: seq<bool>, done: seq<bool>, done': seq<bool>)
    requires |won| == |done| == |done'|
    requires forall i :: 0 <= i < |done| ==> (Visited(order, i) <==> done[i])
    requires forall i :: 0 <= i < |done| ==> done'[i] == (done[i] || won[i])
    ensures forall i :: 0 <= i < |done| ==> (Visited(order + Winners(won), i) <==> done'[i])
  {
    var r := Winners(won);
    forall i | 0 <= i < |done|
      ensures Visited(order + r, i) <==> done'[i]
    {
      if i in r {
        var k :| 0 <= k < |r| && r[k] == i;
      }
    }
  }

  /** `simd_ballot(b)`: one bit per lane, lane 0 in bit 0. */
  function Ballot(b: seq<bool>): (r: nat)
    ensures r < Pow2(|b|)
  {
    if b == [] then 0 else 2 * Ballot(b[1..]) + (if b[0] then 1 else 0)
  }

  /** Bit `i` of `n`. */
  function Bit(n: nat, i: nat): nat
  {
    if i == 0 then n % 2 else Bit(n / 2, i - 1)
  }

  /** Bit `i` of the ballot is lane `i`'s vote. */
  lemma {:induction false} BallotBit(b: seq<bool>, i: nat)
    requires i < |b|
    ensures Bit(Ballot(b), i) == if b[i] then 1 else 0
  {
    if i > 0 {
      BallotBit(b[1..], i - 1);
      assert Ballot(b) / 2 == Ballot(b[1..]);
    }
  }

  /** Two ballots of the same group agree exactly when every lane voted the same. */
  lemma {:induction false} BallotEqual(a: seq<bool>, b: seq<bool>)
    requires |a| == |b|
    ensures Ballot(a) == Ballot(b) <==> a == b
  {
    if a != [] {
      BallotEqual(a[1..], b[1..]);
      if a[1..] == b[1..] && a[0] == b[0] {
        assert a == [a[0]] + a[1..];
        assert b == [b[0]] + b[1..];
      }
    }
  }

  /**
   * The loop's exit test: the ballot of `done` equals the mask of all
   * active lanes exactly when every lane is done.
   */
  lemma {:induction false} BallotAllDone(done: seq<bool>)
    ensures Ballot(done) == Ballot(seq(|done|, _ => true)) <==> forall i :: 0 <= i < |done| ==> done[i]
  {
    var all := seq(|done|, _ => true);
    BallotEqual(done, all);
    if forall i :: 0 <= i < |done| ==> done[i] {
      assert done == all;
    }
  }

  /** No lane voting gives the empty mask, `simd_vote(0)`. */
  lemma {:induction false} BallotNone(n: nat)
    ensures Ballot(seq(n, _ => false)) == 0
  {
    if n > 0 {
      BallotNone(n - 1);
      assert seq(n, _ => false)[1..] == seq(n - 1, _ => false);
    }
  }

  /** The number of lanes not yet done. */
  function Pending(done: seq<bool>): (r: nat)
    ensures r <= |done|
  {
    if done == [] then 0 else Pending(done[1..]) + (if done[0] then 0 else 1)
  }

  /** At the start no lane is done. */
  lemma {:induction false} PendingNone(n: nat)
    ensures Pending(seq(n, _ => false)) == n
  {
    if n > 0 {
      PendingNone(n - 1);
      assert seq(n, _ => false)[1..] == seq(n - 1, _ => false);
    }
  }

  /** A round that finishes at least one lane and un-finishes none shrinks the pending count. */
  lemma {:induction false} PendingDecreases(done: seq<bool>, done': seq<bool>, k: nat)
    requires |done| == |done'| && k < |done|
    requires forall i :: 0 <= i < |done| && done[i] ==> done'[i]
    requires !done[k] && done'[k]
    ensures Pending(done') < Pending(done)
  {
    if k == 0 {
      PendingMonotone(done[1..], done'[1..]);
    } else {
      PendingDecreases(done[1..], done'[1..], k - 1);
    }
  }

  /** Finishing lanes never raises the pending count. */
  lemma {:induction false} PendingMonotone(done: seq<bool>, done': seq<bool>)
    requires |done| == |done'|
    requires forall i :: 0 <= i < |done| && done[i] ==> done'[i]
    ensures Pending(done') <= Pending(done)
  {
    if done != [] {
      PendingMonotone(done[1..], done'[1..]);
    }
  }
}
