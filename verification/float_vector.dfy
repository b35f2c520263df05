/**
 * The fixed `vec2` and `vec3` of `float`: their unions declare a short,
 * hand-written list of accessors instead of the macro-generated groups of
 * `vec<T, N>`. Their storage and accessor semantics are those of
 * `Swizzles.Vec`; this module says which names each one has.
 */
module FloatVector {
  import opened Swizzles

  /** The union members of `vec2`: `x, r, s`, `y, g, t`, `xx` and `yy`. */
  predicate Vec2Member(m: Member) {
    m == Member("x", Scalar(0)) || m == Member("r", Scalar(0)) || m == Member("s", Scalar(0)) ||
    m == Member("y", Scalar(1)) || m == Member("g", Scalar(1)) || m == Member("t", Scalar(1)) ||
    m == Member("xx", Pair(0, 0)) || m == Member("yy", Pair(1, 1))
  }

  /** The union members of `vec3`: `x, r`, `y, g`, `z, b`, `xy`, `yz`, `xyz` and `zyx`. */
  predicate Vec3Member(m: Member) {
    m == Member("x", Scalar(0)) || m == Member("r", Scalar(0)) ||
    m == Member("y", Scalar(1)) || m == Member("g", Scalar(1)) ||
    m == Member("z", Scalar(2)) || m == Member("b", Scalar(2)) ||
    m == Member("xy", Pair(0, 1)) || m == Member("yz", Pair(1, 2)) ||
    m == Member("xyz", Triple(0, 1, 2)) || m == Member("zyx", Triple(2, 1, 0))
  }

  /** Every member of `vec2` names components of a two-component vector, and its name spells them. */
  lemma Vec2Sound(m: Member)
    requires Vec2Member(m)
    ensures Fits(m.view, 2) && Spells(m)
  {
    assert SpelledIn(m.name, m.view, Xyzw) || SpelledIn(m.name, m.view, Rgba) || SpelledIn(m.name, m.view, Stpq);
  }

  /** Every member of `vec3` names components of a three-component vector, and its name spells them. */
  lemma Vec3Sound(m: Member)
    requires Vec3Member(m)
    ensures Fits(m.view, 3) && Spells(m)
  {
    assert SpelledIn(m.name, m.view, Xyzw) || SpelledIn(m.name, m.view, Rgba);
  }

  /** No two members of `vec2` share a name. */
  lemma Vec2NamesUnique(name: string, v: View, w: View)
    requires Vec2Member(Member(name, v)) && Vec2Member(Member(name, w))
    ensures v == w
  {
    Vec2Sound(Member(name, v));
    Vec2Sound(Member(name, w));
    SpellingDetermines(name, v, w);
  }

  /** No two members of `vec3` share a name. */
  lemma Vec3NamesUnique(name: string, v: View, w: View)
    requires Vec3Member(Member(name, v)) && Vec3Member(Member(name, w))
    ensures v == w
  {
    Vec3Sound(Member(name, v));
    Vec3Sound(Member(name, w));
    SpellingDetermines(name, v, w);
  }

  /**
   * In `vec2` the position, colour and texture letters of a component
   * (`x`, `r`, `s` and `y`, `g`, `t`) are the same component, and no other
   * view goes by those names.
   */
  lemma Vec2Aliases(i: nat, v: View)
    requires i < 2
    ensures Vec2Member(Member([Xyzw[i]], v)) <==> v == Scalar(i)
    ensures Vec2Member(Member([Rgba[i]], v)) <==> v == Scalar(i)
    ensures Vec2Member(Member([Stpq[i]], v)) <==> v == Scalar(i)
  {
    var names := [[Xyzw[i]], [Rgba[i]], [Stpq[i]]];
    forall k | 0 <= k < 3
      ensures Vec2Member(Member(names[k], v)) <==> v == Scalar(i)
    {
      assert Vec2Member(Member(names[k], Scalar(i)));
      if Vec2Member(Member(names[k], v)) {
        Vec2NamesUnique(names[k], Scalar(i), v);
      }
    }
    assert names[0] == [Xyzw[i]] && names[1] == [Rgba[i]] && names[2] == [Stpq[i]];
  }

  /**
   * In `vec3` the position and colour letters of a component (`x` and
   * `r`, `y` and `g`, `z` and `b`) are the same component, and no other
   * view goes by those names. `vec3` has no texture letters.
   */
  lemma Vec3Aliases(i: nat, v: View)
    requires i < 3
    ensures Vec3Member(Member([Xyzw[i]], v)) <==> v == Scalar(i)
    ensures Vec3Member(Member([Rgba[i]], v)) <==> v == Scalar(i)
    ensures !Vec3Member(Member([Stpq[i]], v))
  {
    assert Vec3Member(Member([Xyzw[i]], Scalar(i))) && Vec3Member(Member([Rgba[i]], Scalar(i)));
    if Vec3Member(Member([Xyzw[i]], v)) {
      Vec3NamesUnique([Xyzw[i]], Scalar(i), v);
    }
    if Vec3Member(Member([Rgba[i]], v)) {
      Vec3NamesUnique([Rgba[i]], Scalar(i), v);
    }
  }

  /**
   * The only two-component accessors of `vec2` are `xx` and `yy`, each of
   * which names one component twice; `vec2` has no `xy` or `yx`.
   */
  lemma Vec2PairsRepeat(m: Member)
    requires Vec2Member(m) && m.view.Pair?
    ensures m.view.a == m.view.b && !DistinctIndices(m.view)
    ensures m.name != "xy" && m.name != "yx"
  {
  }

  /** Reading `xx` or `yy` of `vec2` gives that component twice. */
  lemma RepeatedRead<T>(s: seq<T>, m: Member)
    requires |s| == 2 && Vec2Member(m) && m.view.Pair?
    ensures Fits(m.view, 2) && Read(s, m.view) == [s[m.view.a], s[m.view.a]]
  {
    Vec2Sound(m);
  }

  /** Reading `zyx` of `vec3` gives the components of `xyz` backwards. */
  lemma ZyxReadsReversed<T>(s: seq<T>)
    requires |s| == 3
    ensures Vec3Member(Member("zyx", Triple(2, 1, 0))) && Vec3Member(Member("xyz", Triple(0, 1, 2)))
    ensures Read(s, Triple(2, 1, 0)) == [Read(s, Triple(0, 1, 2))[2], Read(s, Triple(0, 1, 2))[1], Read(s, Triple(0, 1, 2))[0]]
  {
  }

  /**
   * `xyz` round-trips: assigning values through it reads them back, and
   * assigning what it reads changes nothing; assigning through `zyx` and
   * reading `xyz` gives the values backwards.
   */
  lemma XyzRoundTrip<T>(s: seq<T>, vals: seq<T>)
    requires |s| == 3 && |vals| == 3
    ensures Written(s, Triple(0, 1, 2), vals) == vals
    ensures Written(s, Triple(0, 1, 2), Read(s, Triple(0, 1, 2))) == s
    ensures Read(Written(s, Triple(2, 1, 0), vals), Triple(0, 1, 2)) == [vals[2], vals[1], vals[0]]
  {
    var w := Written(s, Triple(0, 1, 2), vals);
    assert Read(w, Triple(0, 1, 2)) == vals;
    assert w == [w[0], w[1], w[2]];
    WriteBackUnchanged(s, Triple(0, 1, 2));
    var z := Written(s, Triple(2, 1, 0), vals);
    assert Read(z, Triple(2, 1, 0)) == vals;
  }

  /**
   * `xy` and `yz` of `vec3` overlap in `y`: a value assigned through one
   * is read through the other, and `z` keeps its value.
   */
  lemma OverlappingPairs<T>(s: seq<T>, a: T, b: T)
    requires |s| == 3
    ensures Read(Written(s, Pair(0, 1), [a, b]), Pair(1, 2)) == [b, s[2]]
    ensures Read(Written(s, Pair(1, 2), [a, b]), Pair(0, 1)) == [s[0], a]
  {
    var w := Written(s, Pair(0, 1), [a, b]);
    assert Read(w, Pair(0, 1)) == [a, b] && 2 !in Indices(Pair(0, 1));
    var u := Written(s, Pair(1, 2), [a, b]);
    assert Read(u, Pair(1, 2)) == [a, b] && 0 !in Indices(Pair(1, 2));
  }
}
