/**
 * The accessor members of `vec<T, 1>`, `vec<T, 2>` and `vec<T, 3>` as the
 * swizzle-group macros declare them, and what those declarations amount
 * to: which names each vector has, and which view each name is.
 *
 * A group's declarations are stated as a predicate on members: `Group2(i,
 * j, x, y, r, g, m)` holds exactly when the macro call
 * `VEC2_SWIZZLE_GROUP(i, j, x, y, r, g)` declares the member `m`.
 */
module ExtendedVector {
  import opened Swizzles

  /**
   * `VEC1_SWIZZLE_GROUP(i, x, r)`: the one-, two-, three- and four-letter
   * repetitions of component `i`, in both alphabets.
   */
  predicate Group1(i: nat, x: char, r: char, m: Member) {
    m == Member([x], Scalar(i)) || m == Member([r], Scalar(i)) ||
    m == Member([x, x], Pair(i, i)) || m == Member([r, r], Pair(i, i)) ||
    m == Member([x, x, x], Triple(i, i, i)) || m == Member([r, r, r], Triple(i, i, i)) ||
    m == Member([x, x, x, x], Quad(i, i, i, i)) || m == Member([r, r, r, r], Quad(i, i, i, i))
  }

  /**
   * `VEC2_SWIZZLE_GROUP(i, j, x, y, r, g)`: the two-, three- and four-letter
   * names over components `i` and `j` that start with `i` and use `j`.
   */
  predicate Group2(i: nat, j: nat, x: char, y: char, r: char, g: char, m: Member) {
    m == Member([x, y], Pair(i, j)) || m == Member([r, g], Pair(i, j)) ||
    m == Member([x, x, y], Triple(i, i, j)) || m == Member([r, r, g], Triple(i, i, j)) ||
    m == Member([x, y, x], Triple(i, j, i)) || m == Member([r, g, r], Triple(i, j, i)) ||
    m == Member([x, y, y], Triple(i, j, j)) || m == Member([r, g, g], Triple(i, j, j)) ||
    m == Member([x, x, x, y], Quad(i, i, i, j)) || m == Member([r, r, r, g], Quad(i, i, i, j)) ||
    m == Member([x, x, y, x], Quad(i, i, j, i)) || m == Member([r, r, g, r], Quad(i, i, j, i)) ||
    m == Member([x, x, y, y], Quad(i, i, j, j)) || m == Member([r, r, g, g], Quad(i, i, j, j)) ||
    m == Member([x, y, x, x], Quad(i, j, i, i)) || m == Member([r, g, r, r], Quad(i, j, i, i)) ||
    m == Member([x, y, x, y], Quad(i, j, i, j)) || m == Member([r, g, r, g], Quad(i, j, i, j)) ||
    m == Member([x, y, y, x], Quad(i, j, j, i)) || m == Member([r, g, g, r], Quad(i, j, j, i)) ||
    m == Member([x, y, y, y], Quad(i, j, j, j)) || m == Member([r, g, g, g], Quad(i, j, j, j))
  }

  /** `VEC3_SWIZZLE_GROUP`: the six orders of the three components. */
  predicate Group3(m: Member) {
    m == Member("xyz", Triple(0, 1, 2)) || m == Member("rgb", Triple(0, 1, 2)) ||
    m == Member("xzy", Triple(0, 2, 1)) || m == Member("rbg", Triple(0, 2, 1)) ||
    m == Member("yxz", Triple(1, 0, 2)) || m == Member("grb", Triple(1, 0, 2)) ||
    m == Member("yzx", Triple(1, 2, 0)) || m == Member("gbr", Triple(1, 2, 0)) ||
    m == Member("zxy", Triple(2, 0, 1)) || m == Member("brg", Triple(2, 0, 1)) ||
    m == Member("zyx", Triple(2, 1, 0)) || m == Member("bgr", Triple(2, 1, 0))
  }

  /** The union members of `vec<T, 1>`: `VEC1_ALL_SWIZZLES`. */
  predicate Vec1Member(m: Member) {
    Group1(0, 'x', 'r', m)
  }

  /** The union members of `vec<T, 2>`: `VEC2_ALL_SWIZZLES`. */
  predicate Vec2Member(m: Member) {
    Vec1Member(m) || Group1(1, 'y', 'g', m) ||
    Group2(0, 1, 'x', 'y', 'r', 'g', m) || Group2(1, 0, 'y', 'x', 'g', 'r', m)
  }

  /** The union members of `vec<T, 3>`. */
  predicate Vec3Member(m: Member) {
    Vec2Member(m) || Group1(2, 'z', 'b', m) ||
    Group2(0, 2, 'x', 'z', 'r', 'b', m) || Group2(2, 0, 'z', 'x', 'b', 'r', m) ||
    Group2(1, 2, 'y', 'z', 'g', 'b', m) || Group2(2, 1, 'z', 'y', 'b', 'g', m) ||
    Group3(m)
  }

  /** A member's name spells its view in the position or the colour letters. */
  predicate XyzwOrRgba(m: Member) {
    Fits(m.view, 4) && (SpelledIn(m.name, m.view, Xyzw) || SpelledIn(m.name, m.view, Rgba))
  }

  /** Three pairwise different components. */
  predicate Three(p: nat, q: nat, r: nat) {
    p != q && p != r && q != r
  }

  /** A four-component view uses at most two different components. */
  predicate AtMostTwo(v: View) {
    match v
    case Quad(a, b, c, d) => !Three(a, b, c) && !Three(a, b, d) && !Three(a, c, d) && !Three(b, c, d)
    case _ => true
  }

  /** The members `vec<T, 1>` should have: every view of component 0, spelled with `x` or `r`. */
  predicate Swizzle1(m: Member) {
    Fits(m.view, 1) && XyzwOrRgba(m)
  }

  /** The members `vec<T, 2>` should have: every view of components 0 and 1. */
  predicate Swizzle2(m: Member) {
    Fits(m.view, 2) && XyzwOrRgba(m)
  }

  /**
   * The members `vec<T, 3>` has: every view of one to three components,
   * and the four-component views that use at most two components (the
   * four-wide group `VEC4_SWIZZLE_GROUP` is empty).
   */
  predicate Swizzle3(m: Member) {
    Fits(m.view, 3) && XyzwOrRgba(m) && AtMostTwo(m.view)
  }

  /**
   * Every member of `VEC1_SWIZZLE_GROUP(i, ..)` is a view of component `i`
   * alone, inside any vector that has component `i`, and its name spells it.
   */
  lemma Group1Spells(i: nat, n: nat, m: Member)
    requires i < n <= 4 && Group1(i, Xyzw[i], Rgba[i], m)
    ensures XyzwOrRgba(m) && Fits(m.view, n) && AtMostTwo(m.view)
  {
  }

  /**
   * Every member of `VEC2_SWIZZLE_GROUP(i, j, ..)` is a view of components
   * `i` and `j` only, inside any vector that has both, and its name spells it.
   */
  lemma Group2Spells(i: nat, j: nat, n: nat, m: Member)
    requires i < n <= 4 && j < n && Group2(i, j, Xyzw[i], Xyzw[j], Rgba[i], Rgba[j], m)
    ensures XyzwOrRgba(m) && Fits(m.view, n) && AtMostTwo(m.view)
  {
  }

  /** Every member of `VEC3_SWIZZLE_GROUP` is an order of the three components that its name spells. */
  lemma Group3Spells(m: Member)
    requires Group3(m)
    ensures XyzwOrRgba(m) && m.view.Triple? && Fits(m.view, 3) && DistinctIndices(m.view)
  {
  }

  /** A view of component `i` alone, spelled in either alphabet, is declared by `VEC1_SWIZZLE_GROUP(i, ..)`. */
  lemma Group1Has(i: nat, m: Member, a: string)
    requires i < 4 && (a == Xyzw || a == Rgba) && Fits(m.view, 4) && SpelledIn(m.name, m.view, a)
    requires forall k :: 0 <= k < |Indices(m.view)| ==> Indices(m.view)[k] == i
    ensures Group1(i, Xyzw[i], Rgba[i], m)
  {
    var idx, name := Indices(m.view), m.name;
    match m.view
    case Scalar(p) => assert idx[0] == p && name == [a[p]];
    case Pair(p, q) => assert idx[0] == p && idx[1] == q && name == [a[p], a[q]];
    case Triple(p, q, r) =>
      assert idx[0] == p && idx[1] == q && idx[2] == r && name == [a[p], a[q], a[r]];
    case Quad(p, q, r, t) =>
      assert idx[0] == p && idx[1] == q && idx[2] == r && idx[3] == t && name == [a[p], a[q], a[r], a[t]];
  }

  /**
   * A view of components `i` and `j` that starts with `i` and uses `j`,
   * spelled in either alphabet, is declared by `VEC2_SWIZZLE_GROUP(i, j, ..)`.
   */
  lemma Group2Has(i: nat, j: nat, m: Member, a: string)
    requires i < 4 && j < 4 && i != j && (a == Xyzw || a == Rgba) && Fits(m.view, 4) && SpelledIn(m.name, m.view, a)
    requires forall k :: 0 <= k < |Indices(m.view)| ==> Indices(m.view)[k] == i || Indices(m.view)[k] == j
    requires Indices(m.view)[0] == i && j in Indices(m.view)
    ensures Group2(i, j, Xyzw[i], Xyzw[j], Rgba[i], Rgba[j], m)
  {
    var idx, name := Indices(m.view), m.name;
    match m.view
    case Scalar(p) => assert false;
    case Pair(p, q) => assert idx[0] == p && idx[1] == q && name == [a[p], a[q]];
    case Triple(p, q, r) =>
      assert idx[0] == p && idx[1] == q && idx[2] == r && name == [a[p], a[q], a[r]];
    case Quad(p, q, r, t) =>
      assert idx[0] == p && idx[1] == q && idx[2] == r && idx[3] == t && name == [a[p], a[q], a[r], a[t]];
  }

  /** An order of the three components, spelled in either alphabet, is declared by `VEC3_SWIZZLE_GROUP`. */
  lemma Group3Has(m: Member, a: string)
    requires (a == Xyzw || a == Rgba) && m.view.Triple? && Fits(m.view, 3) && DistinctIndices(m.view)
    requires SpelledIn(m.name, m.view, a)
    ensures Group3(m)
  {
    assert m.name == [a[m.view.a], a[m.view.b], a[m.view.c]];
  }

  /** `vec<T, 1>` declares exactly the members `Swizzle1` describes. */
  lemma Vec1Exactly(m: Member)
    ensures Vec1Member(m) <==> Swizzle1(m)
  {
    if Vec1Member(m) {
      Group1Spells(0, 1, m);
    }
    if Swizzle1(m) {
      var a := if SpelledIn(m.name, m.view, Xyzw) then Xyzw else Rgba;
      Group1Has(0, m, a);
    }
  }

  /** A member of `VEC1_SWIZZLE_GROUP(i, ..)` for `i < 2` is a member of `vec<T, 2>`. */
  lemma Group1In2(i: nat, m: Member)
    requires i < 2 && Group1(i, Xyzw[i], Rgba[i], m)
    ensures Vec2Member(m)
  {
    if i == 0 {
      assert Group1(0, 'x', 'r', m);
    } else {
      assert Group1(1, 'y', 'g', m);
    }
  }

  /** A member of `VEC2_SWIZZLE_GROUP(i, j, ..)` for `i, j < 2` is a member of `vec<T, 2>`. */
  lemma Group2In2(i: nat, j: nat, m: Member)
    requires i < 2 && j < 2 && i != j && Group2(i, j, Xyzw[i], Xyzw[j], Rgba[i], Rgba[j], m)
    ensures Vec2Member(m)
  {
    if i == 0 {
      assert Group2(0, 1, 'x', 'y', 'r', 'g', m);
    } else {
      assert Group2(1, 0, 'y', 'x', 'g', 'r', m);
    }
  }

  /** Every member `vec<T, 2>` declares is one `Swizzle2` describes. */
  lemma Vec2Sound(m: Member)
    requires Vec2Member(m)
    ensures Swizzle2(m)
  {
    if Group1(0, 'x', 'r', m) {
      Group1Spells(0, 2, m);
    } else if Group1(1, 'y', 'g', m) {
      Group1Spells(1, 2, m);
    } else if Group2(0, 1, 'x', 'y', 'r', 'g', m) {
      Group2Spells(0, 1, 2, m);
    } else {
      Group2Spells(1, 0, 2, m);
    }
  }

  /** Every member `Swizzle2` describes is declared by `vec<T, 2>`. */
  lemma Vec2Complete(m: Member)
    requires Swizzle2(m)
    ensures Vec2Member(m)
  {
    var a := if SpelledIn(m.name, m.view, Xyzw) then Xyzw else Rgba;
    var idx := Indices(m.view);
    var i := idx[0];
    if forall k :: 0 <= k < |idx| ==> idx[k] == i {
      Group1Has(i, m, a);
      Group1In2(i, m);
    } else {
      var k :| 0 <= k < |idx| && idx[k] != i;
      Group2Has(i, 1 - i, m, a);
      Group2In2(i, 1 - i, m);
    }
  }

  /** `vec<T, 2>` declares exactly the members `Swizzle2` describes: every view of its two components. */
  lemma Vec2Exactly(m: Member)
    ensures Vec2Member(m) <==> Swizzle2(m)
  {
    if Vec2Member(m) {
      Vec2Sound(m);
    }
    if Swizzle2(m) {
      Vec2Complete(m);
    }
  }

  /** A member of `VEC1_SWIZZLE_GROUP(i, ..)` for `i < 3` is a member of `vec<T, 3>`. */
  lemma Group1In3(i: nat, m: Member)
    requires i < 3 && Group1(i, Xyzw[i], Rgba[i], m)
    ensures Vec3Member(m)
  {
    if i == 2 {
      assert Group1(2, 'z', 'b', m);
    } else {
      Group1In2(i, m);
    }
  }

  /** A member of `VEC2_SWIZZLE_GROUP(i, j, ..)` for `i, j < 3` is a member of `vec<T, 3>`. */
  lemma Group2In3(i: nat, j: nat, m: Member)
    requires i < 3 && j < 3 && i != j && Group2(i, j, Xyzw[i], Xyzw[j], Rgba[i], Rgba[j], m)
    ensures Vec3Member(m)
  {
    if i == 0 && j == 2 {
      assert Group2(0, 2, 'x', 'z', 'r', 'b', m);
    } else if i == 2 && j == 0 {
      assert Group2(2, 0, 'z', 'x', 'b', 'r', m);
    } else if i == 1 && j == 2 {
      assert Group2(1, 2, 'y', 'z', 'g', 'b', m);
    } else if i == 2 && j == 1 {
      assert Group2(2, 1, 'z', 'y', 'b', 'g', m);
    } else {
      Group2In2(i, j, m);
    }
  }

  /** Every member `vec<T, 3>` declares is one `Swizzle3` describes. */
  lemma Vec3Sound(m: Member)
    requires Vec3Member(m)
    ensures Swizzle3(m)
  {
    if Group3(m) {
      Group3Spells(m);
    } else if Group1(0, 'x', 'r', m) {
      Group1Spells(0, 3, m);
    } else if Group1(1, 'y', 'g', m) {
      Group1Spells(1, 3, m);
    } else if Group1(2, 'z', 'b', m) {
      Group1Spells(2, 3, m);
    } else if Group2(0, 1, 'x', 'y', 'r', 'g', m) {
      Group2Spells(0, 1, 3, m);
    } else if Group2(1, 0, 'y', 'x', 'g', 'r', m) {
      Group2Spells(1, 0, 3, m);
    } else if Group2(0, 2, 'x', 'z', 'r', 'b', m) {
      Group2Spells(0, 2, 3, m);
    } else if Group2(2, 0, 'z', 'x', 'b', 'r', m) {
      Group2Spells(2, 0, 3, m);
    } else if Group2(1, 2, 'y', 'z', 'g', 'b', m) {
      Group2Spells(1, 2, 3, m);
    } else {
      Group2Spells(2, 1, 3, m);
    }
  }

  /** Every member `Swizzle3` describes is declared by `vec<T, 3>`. */
  lemma Vec3Complete(m: Member)
    requires Swizzle3(m)
    ensures Vec3Member(m)
  {
    var a := if SpelledIn(m.name, m.view, Xyzw) then Xyzw else Rgba;
    var idx := Indices(m.view);
    var i := idx[0];
    if forall k :: 0 <= k < |idx| ==> idx[k] == i {
      Group1Has(i, m, a);
      Group1In3(i, m);
    } else {
      var k :| 0 <= k < |idx| && idx[k] != i;
      var j := idx[k];
      if forall l :: 0 <= l < |idx| ==> idx[l] == i || idx[l] == j {
        Group2Has(i, j, m, a);
        Group2In3(i, j, m);
      } else {
        var l :| 0 <= l < |idx| && idx[l] != i && idx[l] != j;
        Group3Has(m, a);
      }
    }
  }

  /** `vec<T, 3>` declares exactly the members `Swizzle3` describes. */
  lemma Vec3Exactly(m: Member)
    ensures Vec3Member(m) <==> Swizzle3(m)
  {
    if Vec3Member(m) {
      Vec3Sound(m);
    }
    if Swizzle3(m) {
      Vec3Complete(m);
    }
  }

  /** No two members of `vec<T, 3>` share a name, so every name resolves to one view. */
  lemma NamesUnique(name: string, v: View, w: View)
    requires Vec3Member(Member(name, v)) && Vec3Member(Member(name, w))
    ensures v == w
  {
    Vec3Sound(Member(name, v));
    Vec3Sound(Member(name, w));
    SpellingDetermines(name, v, w);
  }

  /** The smaller vectors' members are members of the larger ones. */
  lemma MembersNest(m: Member)
    ensures Vec1Member(m) ==> Vec2Member(m)
    ensures Vec2Member(m) ==> Vec3Member(m)
  {
  }

  /**
   * The position letter and the colour letter of component `i` (`x` and
   * `r`, `y` and `g`, `z` and `b`) name the same component of `vec<T, 3>`,
   * and no other view goes by those names.
   */
  lemma ComponentAliases(i: nat, v: View)
    requires i < 3
    ensures Vec3Member(Member([Xyzw[i]], v)) <==> v == Scalar(i)
    ensures Vec3Member(Member([Rgba[i]], v)) <==> v == Scalar(i)
  {
    Group1In3(i, Member([Xyzw[i]], Scalar(i)));
    Group1In3(i, Member([Rgba[i]], Scalar(i)));
    Resolves([Xyzw[i]], Scalar(i), v);
    Resolves([Rgba[i]], Scalar(i), v);
  }

  /**
   * A value assigned through the position letter of component `i` is what
   * its colour letter reads, and the other way round.
   */
  lemma AliasedWrite<T>(s: seq<T>, i: nat, v: View, w: View, a: T)
    requires |s| == 3 && i < 3
    requires Vec3Member(Member([Xyzw[i]], v)) && Vec3Member(Member([Rgba[i]], w))
    ensures v == w == Scalar(i)
    ensures Read(Written(s, v, [a]), w) == [a]
  {
    ComponentAliases(i, v);
    ComponentAliases(i, w);
  }

  /** A declared name goes by one view only. */
  lemma Resolves(name: string, v: View, w: View)
    requires Vec3Member(Member(name, v))
    ensures Vec3Member(Member(name, w)) <==> w == v
  {
    if Vec3Member(Member(name, w)) {
      NamesUnique(name, v, w);
    }
  }

  /**
   * Assigning `vals` through one of the six orders of `vec<T, 3>` and then
   * reading `xyz` gives `vals` permuted by that order: the value written
   * k-th lands in the component the order names k-th.
   */
  lemma PermutedWrite<T>(s: seq<T>, m: Member, vals: seq<T>)
    requires |s| == 3 && |vals| == 3 && Group3(m)
    ensures Fits(m.view, 3) && DistinctIndices(m.view)
    ensures forall k :: 0 <= k < 3 ==> Read(Written(s, m.view, vals), Triple(0, 1, 2))[Indices(m.view)[k]] == vals[k]
  {
    Group3Spells(m);
  }

  /** `zyx` reverses: assigning through `zyx` and reading `xyz` gives the values backwards. */
  lemma ZyxReverses<T>(s: seq<T>, vals: seq<T>)
    requires |s| == 3 && |vals| == 3
    ensures Vec3Member(Member("zyx", Triple(2, 1, 0))) && Vec3Member(Member("xyz", Triple(0, 1, 2)))
    ensures Read(Written(s, Triple(2, 1, 0), vals), Triple(0, 1, 2)) == [vals[2], vals[1], vals[0]]
  {
    PermutedWrite(s, Member("zyx", Triple(2, 1, 0)), vals);
  }
}
