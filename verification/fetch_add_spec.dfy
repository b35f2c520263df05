/**
 * The specification side of `__metal_atomic64_fetch_add_explicit`: what one
 * critical section does to memory, what a sequence of them does, and the
 * facts about a round of lock acquisitions that the lockstep loop relies on.
 */
module FetchAddSpec {
  import opened Words

  /**
   * `__metal_atomic64_type_id`: which 64-bit type the caller means. The
   * fetch-add body never reads it, so every type adds as `ulong`.
   */
  datatype TypeId = I64 | U64 | F64 | F59 | F43

  /** One SIMD lane's call: the object's address and the operand. */
  datatype Lane = Lane(obj: Word64, operand: Word64)

  /** The 64-bit values of the objects the lanes work on, by address. */
  type Values = map<Word64, Word64>

  /** Every lane's object has a value. */
  predicate LanesIn(vals: Values, lanes: seq<Lane>) {
    forall i :: 0 <= i < |lanes| ==> lanes[i].obj in vals
  }

  /**
   * One critical section of lane `lane`: load the object, add the operand
   * with 64-bit wrap-around, store the sum back.
   */
  function AddStep(vals: Values, lane: Lane): (r: Values)
    requires lane.obj in vals
    ensures r.Keys == vals.Keys
    ensures r[lane.obj] == Wrap64(vals[lane.obj] + lane.operand)
    ensures forall p :: p in vals && p != lane.obj ==> r[p] == vals[p]
  {
    vals[lane.obj := Wrap64(vals[lane.obj] + lane.operand)]
  }

  predicate IndicesBelow(idx: seq<nat>, n: nat) {
    forall k :: 0 <= k < |idx| ==> idx[k] < n
  }

  predicate Distinct(idx: seq<nat>) {
    forall j, k :: 0 <= j < k < |idx| ==> idx[j] != idx[k]
  }

  /** Appending an index not yet present keeps a sequence duplicate-free. */
  lemma {:induction false} DistinctAppend(idx: seq<nat>, i: nat)
    requires Distinct(idx) && !Visited(idx, i)
    ensures Distinct(idx + [i])
  {
    var r := idx + [i];
    forall j, k | 0 <= j < k < |r|
      ensures r[j] != r[k]
    {
      if k == |idx| {
        assert r[j] == idx[j];
      }
    }
  }

  /** The critical sections of lanes `idx[0]`, `idx[1]`, ... run one after the other. */
  function ApplyAll(vals: Values, lanes: seq<Lane>, idx: seq<nat>): (r: Values)
    requires LanesIn(vals, lanes) && IndicesBelow(idx, |lanes|)
    ensures r.Keys == vals.Keys && LanesIn(r, lanes)
    decreases |idx|
  {
    if idx == [] then vals
    else
      var before := ApplyAll(vals, lanes, idx[..|idx| - 1]);
      AddStep(before, lanes[idx[|idx| - 1]])
  }

  /** Lane `i`'s critical section is among those in `order`. */
  predicate Visited(order: seq<nat>, i: nat) {
    i in order
  }

  /** The operand lane `i` adds to object `p`: its own operand if it targets `p`, else nothing. */
  function Contribution(lanes: seq<Lane>, i: nat, p: Word64): nat
    requires i < |lanes|
  {
    if lanes[i].obj == p then lanes[i].operand else 0
  }

  /** The sum of what lanes `idx` add to object `p`, without wrap-around. */
  function SumFor(lanes: seq<Lane>, idx: seq<nat>, p: Word64): nat
    requires IndicesBelow(idx, |lanes|)
    decreases |idx|
  {
    if idx == [] then 0
    else SumFor(lanes, idx[..|idx| - 1], p) + Contribution(lanes, idx[|idx| - 1], p)
  }

  /** The sum of the operands of every lane whose object is `p`. */
  function TotalFor(lanes: seq<Lane>, p: Word64): (r: nat)
    ensures (forall i :: 0 <= i < |lanes| ==> lanes[i].obj != p) ==> r == 0
    ensures forall i :: 0 <= i < |lanes| && lanes[i].obj == p ==> lanes[i].operand <= r
  {
    if lanes == [] then 0
    else
      var n := |lanes| - 1;
      assert forall i :: 0 <= i < n ==> lanes[..n][i] == lanes[i];
      TotalFor(lanes[..n], p) + (if lanes[n].obj == p then lanes[n].operand else 0)
  }

  /** The lane indices 0 .. n - 1 in order. */
  function Range(n: nat): (r: seq<nat>)
    ensures |r| == n && forall k :: 0 <= k < n ==> r[k] == k
    ensures IndicesBelow(r, n)
  {
    if n == 0 then [] else Range(n - 1) + [n - 1]
  }

  lemma {:induction false} RangeDistinct(n: nat)
    ensures Distinct(Range(n))
  {
  }

  /**
   * After the critical sections `idx`, an object holds its old value plus
   * everything those lanes added to it, modulo 2^64.
   */
  lemma {:induction false} ApplyAllValue(vals: Values, lanes: seq<Lane>, idx: seq<nat>, p: Word64)
    requires LanesIn(vals, lanes) && IndicesBelow(idx, |lanes|) && p in vals
    ensures ApplyAll(vals, lanes, idx)[p] == Wrap64(vals[p] + SumFor(lanes, idx, p))
    decreases |idx|
  {
    if idx != [] {
      var prefix, i := idx[..|idx| - 1], idx[|idx| - 1];
      var before := ApplyAll(vals, lanes, prefix);
      ApplyAllValue(vals, lanes, prefix, p);
      assert ApplyAll(vals, lanes, idx) == AddStep(before, lanes[i]);
      AddStepValue(before, lanes, i, p, vals[p], SumFor(lanes, prefix, p));
    }
  }

  /** One more critical section keeps the running-sum description of an object's value. */
  lemma {:induction false} AddStepValue(before: Values, lanes: seq<Lane>, i: nat, p: Word64, v: nat, sum: nat)
    requires i < |lanes| && lanes[i].obj in before && p in before && before[p] == Wrap64(v + sum)
    ensures AddStep(before, lanes[i])[p] == Wrap64(v + (sum + Contribution(lanes, i, p)))
  {
    if lanes[i].obj == p {
      WrapAdd(v, sum, lanes[i].operand);
    }
  }

  /** Taking one index out of the middle of `idx` takes its contribution out of the sum. */
  lemma {:induction false} SumForRemove(lanes: seq<Lane>, idx: seq<nat>, j: nat, p: Word64)
    requires IndicesBelow(idx, |lanes|) && j < |idx|
    ensures IndicesBelow(idx[..j] + idx[j + 1..], |lanes|)
    ensures SumFor(lanes, idx, p) == SumFor(lanes, idx[..j] + idx[j + 1..], p) + Contribution(lanes, idx[j], p)
    decreases |idx|
  {
    var rest := idx[..j] + idx[j + 1..];
    if j == |idx| - 1 {
      assert rest == idx[..|idx| - 1];
    } else {
      var last := |idx| - 1;
      var shorter := idx[..last];
      SumForRemove(lanes, shorter, j, p);
      assert shorter[..j] + shorter[j + 1..] == rest[..|rest| - 1];
      assert rest[|rest| - 1] == idx[last];
    }
  }

  /** `t` with the element at `j` taken out. */
  function RemoveAt(t: seq<nat>, j: nat): (r: seq<nat>)
    requires j < |t|
    ensures |r| == |t| - 1
    ensures forall n :: IndicesBelow(t, n) ==> IndicesBelow(r, n)
    ensures Distinct(t) ==> Distinct(r) && forall y :: y in r <==> y in t && y != t[j]
  {
    var r := t[..j] + t[j + 1..];
    assert forall k :: 0 <= k < |r| ==> r[k] == t[if k < j then k else k + 1];
    r
  }

  lemma {:induction false} HeadIsElement(t: seq<nat>)
    requires t != []
    ensures t[0] in t
  {
  }

  /**
   * The sum does not depend on the order of the lanes: two duplicate-free
   * index sequences with the same elements give the same sum.
   */
  lemma {:induction false} SumForSameSet(lanes: seq<Lane>, s: seq<nat>, t: seq<nat>, p: Word64)
    requires IndicesBelow(s, |lanes|) && IndicesBelow(t, |lanes|)
    requires Distinct(s) && Distinct(t)
    requires forall x :: x in s <==> x in t
    ensures SumFor(lanes, s, p) == SumFor(lanes, t, p)
    decreases |s|
  {
    if s == [] {
      if t != [] {
        HeadIsElement(t);
        assert false;
      }
    } else {
      var x := s[|s| - 1];
      assert x in t;
      var j :| 0 <= j < |t| && t[j] == x;
      var s', t' := RemoveAt(s, |s| - 1), RemoveAt(t, j);
      assert s' == s[..|s| - 1];
      SumForRemove(lanes, t, j, p);
      SumForSameSet(lanes, s', t', p);
    }
  }

  /** Summing over all lanes in index order is `TotalFor`. */
  lemma {:induction false} RangeSum(lanes: seq<Lane>, n: nat, p: Word64)
    requires n <= |lanes|
    ensures IndicesBelow(Range(n), |lanes|)
    ensures SumFor(lanes, Range(n), p) == TotalFor(lanes[..n], p)
  {
    if n > 0 {
      var prev := Range(n - 1);
      RangeSum(lanes, n - 1, p);
      assert Range(n)[..n - 1] == prev && Range(n)[n - 1] == n - 1;
      assert SumFor(lanes, Range(n), p) == SumFor(lanes, prev, p) + Contribution(lanes, n - 1, p);
      assert lanes[..n][..n - 1] == lanes[..n - 1];
      assert TotalFor(lanes[..n], p) == TotalFor(lanes[..n - 1], p) + Contribution(lanes, n - 1, p);
    } else {
      assert Range(n) == [] && lanes[..n] == [];
    }
  }

  /**
   * Whatever order the lanes' critical sections run in, once each has run
   * exactly once every object holds its old value plus the sum of the
   * operands aimed at it, modulo 2^64.
   */
  lemma {:induction false} GroupSum(vals: Values, lanes: seq<Lane>, order: seq<nat>, p: Word64)
    requires LanesIn(vals, lanes) && IndicesBelow(order, |lanes|) && Distinct(order)
    requires forall i :: 0 <= i < |lanes| ==> Visited(order, i)
    requires p in vals
    ensures ApplyAll(vals, lanes, order)[p] == Wrap64(vals[p] + TotalFor(lanes, p))
  {
    OrderedSum(lanes, order, p);
    ApplyAllValue(vals, lanes, order, p);
  }

  /** Summing in any order that visits every lane once gives `TotalFor`. */
  lemma {:induction false} OrderedSum(lanes: seq<Lane>, order: seq<nat>, p: Word64)
    requires IndicesBelow(order, |lanes|) && Distinct(order)
    requires forall i :: 0 <= i < |lanes| ==> Visited(order, i)
    ensures SumFor(lanes, order, p) == TotalFor(lanes, p)
  {
    CoversRange(order, |lanes|);
    RangeDistinct(|lanes|);
    SumForSameSet(lanes, order, Range(|lanes|), p);
    RangeSum(lanes, |lanes|, p);
    assert lanes[..|lanes|] == lanes;
  }

  /** A sequence of indices below n that contains each of them has the same elements as `Range(n)`. */
  lemma {:induction false} CoversRange(order: seq<nat>, n: nat)
    requires IndicesBelow(order, n)
    requires forall i :: 0 <= i < n ==> Visited(order, i)
    ensures forall x :: x in order <==> x in Range(n)
  {
    var all := Range(n);
    forall x
      ensures x in order <==> x in all
    {
      if x in all {
        var k :| 0 <= k < |all| && all[k] == x;
        assert Visited(order, x);
      }
      if x in order {
        var k :| 0 <= k < |order| && order[k] == x;
        assert all[x] == x;
      }
    }
  }

}
