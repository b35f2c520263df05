/**
 * The swizzle accessors shared by `vec<T, N>` and by `vec2`/`vec3`: a vector
 * is a fixed-length component array, and every accessor member is a view of
 * that same storage (the members live in one union) naming one to four
 * component indices. Reading a view converts it (`operator T()`,
 * `operator vec_type()`); assigning to it writes the components it names.
 */
module Swizzles {
  /**
   * The indices an accessor names: `scalar_swizzle<I>` is `Scalar(I)`,
   * `vec2_swizzle<A, B>` is `Pair(A, B)`, and so on.
   */
  datatype View = Scalar(i: nat) | Pair(a: nat, b: nat) | Triple(a: nat, b: nat, c: nat)
                | Quad(a: nat, b: nat, c: nat, d: nat)

  /** The component indices of a view, in the order its conversion lists them. */
  function Indices(v: View): (r: seq<nat>)
    ensures 1 <= |r| <= 4
  {
    match v
    case Scalar(i) => [i]
    case Pair(a, b) => [a, b]
    case Triple(a, b, c) => [a, b, c]
    case Quad(a, b, c, d) => [a, b, c, d]
  }

  /** A view is determined by the indices it names. */
  lemma IndicesInjective(v: View, w: View)
    requires Indices(v) == Indices(w)
    ensures v == w
  {
    var r := Indices(v);
    assert |Indices(w)| == |r|;
    match v
    case Scalar(i) => assert w.Scalar? && w.i == r[0];
    case Pair(a, b) => assert w.Pair? && w.a == r[0] && w.b == r[1];
    case Triple(a, b, c) => assert w.Triple? && w.a == r[0] && w.b == r[1] && w.c == r[2];
    case Quad(a, b, c, d) => assert w.Quad? && w.a == r[0] && w.b == r[1] && w.c == r[2] && w.d == r[3];
  }

  /** Every index the view names lies inside a vector of `n` components. */
  predicate Fits(v: View, n: nat)
    ensures Fits(v, n) <==> forall k :: 0 <= k < |Indices(v)| ==> Indices(v)[k] < n
  {
    match v
    case Scalar(i) => assert Indices(v)[0] == i; i < n
    case Pair(a, b) => assert Indices(v)[0] == a && Indices(v)[1] == b; a < n && b < n
    case Triple(a, b, c) =>
      assert Indices(v)[0] == a && Indices(v)[1] == b && Indices(v)[2] == c;
      a < n && b < n && c < n
    case Quad(a, b, c, d) =>
      assert Indices(v)[0] == a && Indices(v)[1] == b && Indices(v)[2] == c && Indices(v)[3] == d;
      a < n && b < n && c < n && d < n
  }

  /** No component is named twice. */
  predicate DistinctIndices(v: View)
    ensures DistinctIndices(v) <==> forall j, k :: 0 <= j < k < |Indices(v)| ==> Indices(v)[j] != Indices(v)[k]
  {
    match v
    case Scalar(_) => true
    case Pair(a, b) => assert Indices(v)[0] == a && Indices(v)[1] == b; a != b
    case Triple(a, b, c) =>
      assert Indices(v)[0] == a && Indices(v)[1] == b && Indices(v)[2] == c;
      a != b && a != c && b != c
    case Quad(a, b, c, d) =>
      assert Indices(v)[0] == a && Indices(v)[1] == b && Indices(v)[2] == c && Indices(v)[3] == d;
      a != b && a != c && a != d && b != c && b != d && c != d
  }

  /**
   * The conversion of a view: `scalar_swizzle` gives `_data[I]`,
   * `vec2_swizzle` gives `vec_type(_data[A], _data[B])`, and so on.
   */
  function Read<T>(s: seq<T>, v: View): (r: seq<T>)
    requires Fits(v, |s|)
    ensures |r| == |Indices(v)|
    ensures forall k :: 0 <= k < |r| ==> r[k] == s[Indices(v)[k]]
  {
    match v
    case Scalar(i) => [s[i]]
    case Pair(a, b) => [s[a], s[b]]
    case Triple(a, b, c) => [s[a], s[b], s[c]]
    case Quad(a, b, c, d) => [s[a], s[b], s[c], s[d]]
  }

  /**
   * The components after assigning `vals` to a view: the first value to
   * the first index named, the second to the second, and so on. Only the
   * named components change, and reading the view back gives `vals`.
   */
  function Written<T>(s: seq<T>, v: View, vals: seq<T>): (r: seq<T>)
    requires Fits(v, |s|) && DistinctIndices(v) && |vals| == |Indices(v)|
    ensures |r| == |s|
    ensures forall j :: 0 <= j < |s| && j !in Indices(v) ==> r[j] == s[j]
    ensures Read(r, v) == vals
  {
    match v
    case Scalar(i) => s[i := vals[0]]
    case Pair(a, b) => s[a := vals[0]][b := vals[1]]
    case Triple(a, b, c) => TripleWritten(s, v, vals); s[a := vals[0]][b := vals[1]][c := vals[2]]
    case Quad(a, b, c, d) => QuadWritten(s, v, vals); s[a := vals[0]][b := vals[1]][c := vals[2]][d := vals[3]]
  }

  /** The three-index case of `Written`. */
  lemma TripleWritten<T>(s: seq<T>, v: View, vals: seq<T>)
    requires v.Triple? && Fits(v, |s|) && DistinctIndices(v) && |vals| == 3
    ensures var r := s[v.a := vals[0]][v.b := vals[1]][v.c := vals[2]];
      (forall j :: 0 <= j < |s| && j !in Indices(v) ==> r[j] == s[j]) && Read(r, v) == vals
  {
    var r := s[v.a := vals[0]][v.b := vals[1]][v.c := vals[2]];
    assert Indices(v) == [v.a, v.b, v.c];
    assert Read(r, v) == [vals[0], vals[1], vals[2]];
  }

  /** The four-index case of `Written`. */
  lemma QuadWritten<T>(s: seq<T>, v: View, vals: seq<T>)
    requires v.Quad? && Fits(v, |s|) && DistinctIndices(v) && |vals| == 4
    ensures var r := s[v.a := vals[0]][v.b := vals[1]][v.c := vals[2]][v.d := vals[3]];
      (forall j :: 0 <= j < |s| && j !in Indices(v) ==> r[j] == s[j]) && Read(r, v) == vals
  {
    var r := s[v.a := vals[0]][v.b := vals[1]][v.c := vals[2]][v.d := vals[3]];
    assert Indices(v) == [v.a, v.b, v.c, v.d];
    assert Read(r, v) == [vals[0], vals[1], vals[2], vals[3]];
  }

  /** Assigning a view what it already reads changes nothing. */
  lemma WriteBackUnchanged<T>(s: seq<T>, v: View)
    requires Fits(v, |s|) && DistinctIndices(v)
    ensures Written(s, v, Read(s, v)) == s
  {
    var r := Written(s, v, Read(s, v));
    forall j | 0 <= j < |s|
      ensures r[j] == s[j]
    {
      if j in Indices(v) {
        var k :| 0 <= k < |Indices(v)| && Indices(v)[k] == j;
        assert Read(r, v)[k] == r[j];
      }
    }
  }

  /** A second assignment to the same view overwrites the first completely. */
  lemma WriteTwice<T>(s: seq<T>, v: View, first: seq<T>, second: seq<T>)
    requires Fits(v, |s|) && DistinctIndices(v)
    requires |first| == |Indices(v)| && |second| == |Indices(v)|
    ensures Written(Written(s, v, first), v, second) == Written(s, v, second)
  {
    var a, b := Written(Written(s, v, first), v, second), Written(s, v, second);
    forall j | 0 <= j < |s|
      ensures a[j] == b[j]
    {
      if j in Indices(v) {
        var k :| 0 <= k < |Indices(v)| && Indices(v)[k] == j;
        assert Read(a, v)[k] == a[j] && Read(b, v)[k] == b[j];
      }
    }
  }

  /**
   * The struct's implicit copy assignment, which C++ chooses over the
   * user-written `operator=` when a view is assigned a view of the same
   * struct type (`a.z = b.z`, `a.yz = b.yz`): it copies the struct's own
   * `_data[0 .. k)`, with `k` the view's width. That is components 0 .. k - 1
   * of `b`, whichever components the view names.
   */
  function CopyAssigned<T>(a: seq<T>, v: View, b: seq<T>): (r: seq<T>)
    requires |a| == |b|
    ensures |r| == |a|
    ensures forall j :: 0 <= j < |a| ==> r[j] == if j < |Indices(v)| then b[j] else a[j]
  {
    var k := if |Indices(v)| < |a| then |Indices(v)| else |a|;
    b[..k] + a[k..]
  }

  /**
   * For a view that names components 0, 1, ... in order (`x`, `xy`, `xyz`),
   * the copy is exactly an assignment of what the other view reads.
   */
  lemma CopyMatchesPrefixViews<T>(a: seq<T>, v: View, b: seq<T>)
    requires |a| == |b| && Fits(v, |a|) && DistinctIndices(v)
    requires forall k :: 0 <= k < |Indices(v)| ==> Indices(v)[k] == k
    ensures CopyAssigned(a, v, b) == Written(a, v, Read(b, v))
  {
    var c, w := CopyAssigned(a, v, b), Written(a, v, Read(b, v));
    forall j | 0 <= j < |a|
      ensures c[j] == w[j]
    {
      if j < |Indices(v)| {
        assert Indices(v)[j] == j;
        assert Read(w, v)[j] == w[j];
      }
    }
  }

  /**
   * `a.z = b.z` and `a.yz = b.yz` with `a = (1, 2, 3)`, `b = (4, 5, 6)`: the
   * copy assignment stores `b`'s leading components, `(4, 2, 3)` and
   * `(4, 5, 3)`, where assigning what `b.z` or `b.yz` reads gives `(1, 2, 6)`
   * and `(1, 5, 6)`.
   */
  lemma CopyDiffersFromAssign()
    ensures CopyAssigned([1, 2, 3], Scalar(2), [4, 5, 6]) == [4, 2, 3]
    ensures Written([1, 2, 3], Scalar(2), Read([4, 5, 6], Scalar(2))) == [1, 2, 6]
    ensures CopyAssigned([1, 2, 3], Pair(1, 2), [4, 5, 6]) == [4, 5, 3]
    ensures Written([1, 2, 3], Pair(1, 2), Read([4, 5, 6], Pair(1, 2))) == [1, 5, 6]
  {
    var a, b := [1, 2, 3], [4, 5, 6];
    var c, d := CopyAssigned(a, Scalar(2), b), CopyAssigned(a, Pair(1, 2), b);
    assert c == [c[0], c[1], c[2]] && d == [d[0], d[1], d[2]];
    var e, f := Written(a, Scalar(2), Read(b, Scalar(2))), Written(a, Pair(1, 2), Read(b, Pair(1, 2)));
    assert Indices(Scalar(2)) == [2] && Indices(Pair(1, 2)) == [1, 2];
    assert Read(e, Scalar(2))[0] == e[2] && Read(f, Pair(1, 2))[0] == f[1] && Read(f, Pair(1, 2))[1] == f[2];
    assert e == [e[0], e[1], e[2]] && f == [f[0], f[1], f[2]];
  }

  /**
   * Two views that name the same component alias it: a value assigned
   * through one is what the other reads.
   */
  lemma ScalarAlias<T>(s: seq<T>, i: nat, x: T)
    requires i < |s|
    ensures Read(Written(s, Scalar(i), [x]), Scalar(i)) == [x]
    ensures forall j :: 0 <= j < |s| && j != i ==> Written(s, Scalar(i), [x])[j] == s[j]
  {
  }

  /** A member of a vector's union: an accessor's name and the view it is. */
  datatype Member = Member(name: string, view: View)

  /** The component letters: position, colour and texture coordinates. */
  const Xyzw: string := "xyzw"
  const Rgba: string := "rgba"
  const Stpq: string := "stpq"

  predicate IsAlphabet(a: string) {
    a == Xyzw || a == Rgba || a == Stpq
  }

  /**
   * `name` spells the view's indices in `alphabet`: one letter per index,
   * the k-th letter being the alphabet's letter for the k-th index.
   */
  predicate SpelledIn(name: string, v: View, alphabet: string)
    requires |alphabet| == 4 && Fits(v, 4)
  {
    match v
    case Scalar(i) => |name| == 1 && name[0] == alphabet[i]
    case Pair(p, q) => |name| == 2 && name[0] == alphabet[p] && name[1] == alphabet[q]
    case Triple(p, q, r) =>
      |name| == 3 && name[0] == alphabet[p] && name[1] == alphabet[q] && name[2] == alphabet[r]
    case Quad(p, q, r, t) =>
      |name| == 4 && name[0] == alphabet[p] && name[1] == alphabet[q] && name[2] == alphabet[r] &&
      name[3] == alphabet[t]
  }

  /** A member's name spells its indices in one of the component alphabets. */
  predicate Spells(m: Member) {
    Fits(m.view, 4) &&
    (SpelledIn(m.name, m.view, Xyzw) || SpelledIn(m.name, m.view, Rgba) || SpelledIn(m.name, m.view, Stpq))
  }

  /** The component a letter names in whichever alphabet it belongs to; 4 for any other character. */
  function ComponentOf(c: char): nat {
    match c
    case 'x' => 0 case 'r' => 0 case 's' => 0
    case 'y' => 1 case 'g' => 1 case 't' => 1
    case 'z' => 2 case 'b' => 2 case 'p' => 2
    case 'w' => 3 case 'a' => 3 case 'q' => 3
    case _ => 4
  }

  /** Every alphabet lists its letters in component order. */
  lemma ComponentOfLetter(a: string, i: nat)
    requires IsAlphabet(a) && i < 4
    ensures ComponentOf(a[i]) == i
  {
  }

  /** A name spells at most one view: two members with the same spelled name are the same member. */
  lemma SpellingDetermines(name: string, v: View, w: View)
    requires Spells(Member(name, v)) && Spells(Member(name, w))
    ensures v == w
  {
    var a := if SpelledIn(name, v, Xyzw) then Xyzw else if SpelledIn(name, v, Rgba) then Rgba else Stpq;
    var b := if SpelledIn(name, w, Xyzw) then Xyzw else if SpelledIn(name, w, Rgba) then Rgba else Stpq;
    match v
    case Scalar(p) =>
      ComponentOfLetter(a, p);
      ComponentOfLetter(b, w.i);
    case Pair(p, q) =>
      ComponentOfLetter(a, p); ComponentOfLetter(a, q);
      ComponentOfLetter(b, w.a); ComponentOfLetter(b, w.b);
    case Triple(p, q, r) =>
      ComponentOfLetter(a, p); ComponentOfLetter(a, q); ComponentOfLetter(a, r);
      ComponentOfLetter(b, w.a); ComponentOfLetter(b, w.b); ComponentOfLetter(b, w.c);
    case Quad(p, q, r, t) =>
      ComponentOfLetter(a, p); ComponentOfLetter(a, q); ComponentOfLetter(a, r); ComponentOfLetter(a, t);
      ComponentOfLetter(b, w.a); ComponentOfLetter(b, w.b); ComponentOfLetter(b, w.c); ComponentOfLetter(b, w.d);
  }

  /**
   * A vector: `T _data[N]`, the storage every accessor member of the union
   * reads and writes. The array's length is the vector's `N`.
   */
  class Vec<T> {
    const data: array<T>

    /** `vec<T, 1>(a)`: `x = a`. */
    constructor FromOne(a: T)
      ensures fresh(data) && data[..] == [a]
    {
      data := new T[1](_ => a);
      new;
      var _ := SetComponent(0, a);
    }

    /** `vec(all)` of two components: `x = y = all`, the inner assignment first. */
    constructor Fill2(all: T)
      ensures fresh(data) && data[..] == [all, all]
    {
      data := new T[2](_ => all);
      new;
      var y := SetComponent(1, all);
      var _ := SetComponent(0, y);
    }

    /** `vec(a, b)`: `x = a; y = b;`. */
    constructor FromTwo(a: T, b: T)
      ensures fresh(data) && data[..] == [a, b]
    {
      data := new T[2](_ => a);
      new;
      var _ := SetComponent(0, a);
      var _ := SetComponent(1, b);
    }

    /** `vec(all)` of three components: `x = y = z = all`, innermost first. */
    constructor Fill3(all: T)
      ensures fresh(data) && data[..] == [all, all, all]
    {
      data := new T[3](_ => all);
      new;
      var z := SetComponent(2, all);
      var y := SetComponent(1, z);
      var _ := SetComponent(0, y);
    }

    /** `vec(a, b, c)`: `x = a; y = b; z = c;`. */
    constructor FromThree(a: T, b: T, c: T)
      ensures fresh(data) && data[..] == [a, b, c]
    {
      data := new T[3](_ => a);
      new;
      var _ := SetComponent(0, a);
      var _ := SetComponent(1, b);
      var _ := SetComponent(2, c);
    }

    /**
     * `scalar_swizzle<I>::operator=`: stores `x` into component `i` and
     * yields that component, which now holds `x`.
     */
    method SetComponent(i: nat, x: T) returns (r: T)
      requires i < data.Length
      modifies data
      ensures data[..] == old(data[..])[i := x]
      ensures r == data[i] && r == x
    {
      data[i] := x;
      r := data[i];
    }

    /**
     * `vec2_swizzle`/`vec3_swizzle`/`vec4_swizzle` `operator=`: assigns the
     * components of `vals` to the indices the view names, in order, and
     * yields the vector of assigned values.
     */
    method Assign(v: View, vals: seq<T>) returns (r: seq<T>)
      requires Fits(v, data.Length) && DistinctIndices(v) && |vals| == |Indices(v)|
      modifies data
      ensures data[..] == Written(old(data[..]), v, vals)
      ensures r == vals && Read(data[..], v) == vals
    {
      match v
      case Scalar(i) =>
        data[i] := vals[0];
        r := [data[i]];
      case Pair(a, b) =>
        data[a] := vals[0];
        data[b] := vals[1];
        r := [data[a], data[b]];
      case Triple(a, b, c) =>
        data[a] := vals[0];
        data[b] := vals[1];
        data[c] := vals[2];
        r := [data[a], data[b], data[c]];
      case Quad(a, b, c, d) =>
        data[a] := vals[0];
        data[b] := vals[1];
        data[c] := vals[2];
        data[d] := vals[3];
        r := [data[a], data[b], data[c], data[d]];
    }

    /**
     * `a.v = b.v` for two views of the same struct type: the implicit copy
     * assignment, which copies `other`'s first `k` components, for a view
     * of width `k`, one element of `_data` at a time.
     */
    method CopyAssign(v: View, other: Vec<T>)
      requires other.data.Length == data.Length
      modifies data
      ensures data[..] == CopyAssigned(old(data[..]), v, old(other.data[..]))
    {
      var k := if |Indices(v)| < data.Length then |Indices(v)| else data.Length;
      var i := 0;
      while i < k
        invariant 0 <= i <= k
        invariant forall j :: 0 <= j < i ==> data[j] == old(other.data[j])
        invariant forall j :: i <= j < data.Length ==> data[j] == old(data[j])
        invariant forall j :: i <= j < data.Length ==> other.data[j] == old(other.data[j])
      {
        data[i] := other.data[i];
        i := i + 1;
      }
    }

    /**
     * Postfix `++` or `--` on component `i`, with `step` the element type's
     * increment or decrement: yields the old value, stores the stepped one.
     */
    method PostStep(i: nat, step: T -> T) returns (r: T)
      requires i < data.Length
      modifies data
      ensures r == old(data[i])
      ensures data[..] == old(data[..])[i := step(r)]
    {
      r := data[i];
      data[i] := step(r);
    }

    /** Prefix `++` or `--` on component `i`: stores the stepped value and yields it. */
    method PreStep(i: nat, step: T -> T) returns (r: T)
      requires i < data.Length
      modifies data
      ensures r == step(old(data[i]))
      ensures data[..] == old(data[..])[i := r]
    {
      data[i] := step(data[i]);
      r := data[i];
    }
  }
}
