/**
 * The `MapK` instances: the key-wise semigroup and monoid driven by a value
 * semigroup, `Eq` up to a value equality, and `filterMap`. Kotlin's maps are
 * folded entry by entry; here a fold visits the keys of a Dafny `map` in an
 * unspecified order, and every result below is stated pointwise, so it does
 * not depend on that order.
 */
module MapK {

  import opened Options
  import opened Typeclasses

  /** Kotlin's `m[k]`: the value at `k`, or `null`. */
  function Get<K, A>(m: map<K, A>, k: K): (r: Option<A>)
    ensures r.Some? <==> k in m
    ensures r.Some? ==> r.value == m[k]
  {
    if k in m then Some(m[k]) else None
  }

  /** `a.maybeCombine(b)`: `a ⊕ b`, or `a` itself when `b` is `null`. */
  function MaybeCombine<A>(sg: (A, A) -> A, a: A, b: Option<A>): (r: A)
    ensures b.None? ==> r == a
    ensures b.Some? ==> r == sg(a, b.value)
  {
    match b
    case None => a
    case Some(v) => sg(a, v)
  }

  /** `my[k]?.combine(b) ?: b`: the value already in the accumulator stays on the left. */
  function MaybeCombineLeft<A>(sg: (A, A) -> A, a: Option<A>, b: A): (r: A)
    ensures a.None? ==> r == b
    ensures a.Some? ==> r == sg(a.value, b)
  {
    match a
    case None => b
    case Some(v) => sg(v, b)
  }

  /**
   * The fold of `combine`: starting from `acc`, every entry `(k, v)` of `src`
   * updates key `k` with `v` combined with the accumulator's value at `k`, if it
   * has one; `v` goes on the left when `srcLeft` and on the right otherwise.
   * Each key of `src` is visited once, so the accumulator's value at `k` is
   * still the one `acc` had.
   */
  ghost function FoldCombine<K, A>(sg: (A, A) -> A, acc: map<K, A>, src: map<K, A>, srcLeft: bool): (r: map<K, A>)
    ensures r.Keys == acc.Keys + src.Keys
    ensures forall k :: k in src && k in acc ==> r[k] == if srcLeft then sg(src[k], acc[k]) else sg(acc[k], src[k])
    ensures forall k :: k in src && k !in acc ==> r[k] == src[k]
    ensures forall k :: k in acc && k !in src ==> r[k] == acc[k]
    decreases src.Keys
  {
    if src == map[] then acc
    else
      var k :| k in src;
      var rest := src - {k};
      assert rest.Keys < src.Keys;
      var v := if srcLeft then MaybeCombine(sg, src[k], Get(acc, k)) else MaybeCombineLeft(sg, Get(acc, k), src[k]);
      FoldCombine(sg, acc[k := v], rest, srcLeft)
  }

  /**
   * `MapKSemigroup.combine` as written: the smaller map is folded into the
   * larger one, and the value from the map being folded is always put on the
   * left of the value semigroup.
   */
  ghost function CombineAsWritten<K, A>(sg: (A, A) -> A, m1: map<K, A>, m2: map<K, A>): (r: map<K, A>)
    ensures r.Keys == m1.Keys + m2.Keys
    ensures forall k :: k in m1 && k !in m2 ==> r[k] == m1[k]
    ensures forall k :: k in m2 && k !in m1 ==> r[k] == m2[k]
    ensures |m1| < |m2| ==> forall k :: k in m1 && k in m2 ==> r[k] == sg(m1[k], m2[k])
    ensures |m1| >= |m2| ==> forall k :: k in m1 && k in m2 ==> r[k] == sg(m2[k], m1[k])
  {
    if |m1| < |m2| then FoldCombine(sg, m2, m1, true) else FoldCombine(sg, m1, m2, true)
  }

  /** The value semigroup of the counterexample below: string concatenation. */
  function Concat(x: string, y: string): string {
    x + y
  }

  /** String concatenation is a lawful semigroup. */
  lemma ConcatAssociative()
    ensures Associative(Concat)
  {
    forall x, y, z ensures Concat(Concat(x, y), z) == Concat(x, Concat(y, z)) {
      assert (x + y) + z == x + (y + z);
    }
  }

  /** Two maps of equal size combine in reversed order: the value of `m2` goes first. */
  lemma CombineAsWrittenEqualSizeReversed()
    ensures CombineAsWritten(Concat, map[0 := "a"], map[0 := "b"]) == map[0 := "ba"]
  {
    var m1, m2 := map[0 := "a"], map[0 := "b"];
    assert m1.Keys == {0} && m2.Keys == {0};
    var r := CombineAsWritten(Concat, m1, m2);
    assert r.Keys == {0};
    assert r[0] == Concat("b", "a") == "ba";
  }

  /** `(m1 ⊕ m2) ⊕ m3` for the maps of the counterexample, at key `0`. */
  lemma CombineAsWrittenLeftNested()
    ensures CombineAsWritten(Concat, CombineAsWritten(Concat, map[0 := "a"], map[0 := "b"]), map[0 := "c", 1 := "d"])[0] == "bac"
  {
    CombineAsWrittenEqualSizeReversed();
    var l12, m3 := map[0 := "ba"], map[0 := "c", 1 := "d"];
    assert l12.Keys == {0} && m3.Keys == {0, 1};
    assert |l12| < |m3|;
    assert CombineAsWritten(Concat, l12, m3)[0] == Concat("ba", "c") == "bac";
  }

  /** `m1 ⊕ (m2 ⊕ m3)` for the same maps, at key `0`. */
  lemma CombineAsWrittenRightNested()
    ensures CombineAsWritten(Concat, map[0 := "a"], CombineAsWritten(Concat, map[0 := "b"], map[0 := "c", 1 := "d"]))[0] == "abc"
  {
    var m3 := map[0 := "c", 1 := "d"];
    assert m3.Keys == {0, 1};
    var r23 := CombineAsWritten(Concat, map[0 := "b"], m3);
    assert r23.Keys == {0, 1};
    assert |r23| == 2;
    assert r23[0] == "bc";
    var m1 := map[0 := "a"];
    assert m1.Keys == {0};
    assert |m1| < |r23|;
  }

  /**
   * With string concatenation, a lawful value semigroup, `CombineAsWritten` is
   * not associative: the key `0` ends up as "bac" on one side and "abc" on the other.
   */
  lemma CombineAsWrittenNotAssociative()
    ensures Associative(Concat)
    ensures CombineAsWritten(Concat, CombineAsWritten(Concat, map[0 := "a"], map[0 := "b"]), map[0 := "c", 1 := "d"])
         != CombineAsWritten(Concat, map[0 := "a"], CombineAsWritten(Concat, map[0 := "b"], map[0 := "c", 1 := "d"]))
  {
    CombineAsWrittenLeftNested();
    CombineAsWrittenRightNested();
    assert "bac"[0] != "abc"[0];
    ConcatAssociative();
  }

  /**
   * `MapKSemigroup.combine` with the second fold corrected: whichever map is
   * folded, a key present in both maps gets `m1[k] ⊕ m2[k]`.
   */
  ghost function Combine<K, A>(sg: (A, A) -> A, m1: map<K, A>, m2: map<K, A>): (r: map<K, A>)
    ensures r.Keys == m1.Keys + m2.Keys
    ensures forall k :: k in m1 && k !in m2 ==> r[k] == m1[k]
    ensures forall k :: k in m2 && k !in m1 ==> r[k] == m2[k]
    ensures forall k :: k in m1 && k in m2 ==> r[k] == sg(m1[k], m2[k])
  {
    if |m1| < |m2| then FoldCombine(sg, m2, m1, true) else FoldCombine(sg, m1, m2, false)
  }

  /** The two versions differ only in the values of shared keys when the first map is not smaller. */
  lemma CombineAgreesWhenFirstSmaller<K, A>(sg: (A, A) -> A, m1: map<K, A>, m2: map<K, A>)
    requires |m1| < |m2|
    ensures CombineAsWritten(sg, m1, m2) == Combine(sg, m1, m2)
  {
  }

  /** The corrected `combine` is associative whenever the value semigroup is. */
  lemma CombineAssociative<K, A(!new)>(sg: (A, A) -> A, m1: map<K, A>, m2: map<K, A>, m3: map<K, A>)
    requires Associative(sg)
    ensures Combine(sg, Combine(sg, m1, m2), m3) == Combine(sg, m1, Combine(sg, m2, m3))
  {
    var l := Combine(sg, Combine(sg, m1, m2), m3);
    var r := Combine(sg, m1, Combine(sg, m2, m3));
    forall k | k in l ensures k in r && l[k] == r[k] {
      if k in m1 && k in m2 && k in m3 {
        assert sg(sg(m1[k], m2[k]), m3[k]) == sg(m1[k], sg(m2[k], m3[k]));
      }
    }
  }

  /** `MapKMonoid.empty()`. */
  function Empty<K, A>(): (r: map<K, A>)
    ensures |r| == 0
  {
    map[]
  }

  /** Combining with `empty()` on either side leaves a map unchanged, for both versions of `combine`. */
  lemma CombineEmpty<K, A>(sg: (A, A) -> A, m: map<K, A>)
    ensures Combine(sg, m, Empty()) == m && Combine(sg, Empty(), m) == m
    ensures CombineAsWritten(sg, m, Empty()) == m && CombineAsWritten(sg, Empty(), m) == m
  {
  }

  /** `MapKMonoid`, with the corrected `combine`. */
  ghost function MapKMonoid<K, A>(sg: (A, A) -> A): (r: Monoid<map<K, A>>)
    ensures r.empty == Empty()
  {
    Monoid(Empty(), (x, y) => Combine(sg, x, y))
  }

  /** The monoid laws hold of `MapKMonoid` whenever the value semigroup is associative. */
  lemma MapKMonoidIsMonoid<K(!new), A(!new)>(sg: (A, A) -> A)
    requires Associative(sg)
    ensures IsMonoid(MapKMonoid<K, A>(sg))
  {
    var m := MapKMonoid<K, A>(sg);
    forall x, y, z ensures m.combine(m.combine(x, y), z) == m.combine(x, m.combine(y, z)) {
      CombineAssociative(sg, x, y, z);
    }
    forall x ensures m.combine(m.empty, x) == x && m.combine(x, m.empty) == x {
      CombineEmpty(sg, x);
    }
  }

  /**
   * The value check of `eqv`: for each key in `ks`, whether `m2` has that key
   * with an `EQA`-equivalent value (a missing key counts as `false`), and the
   * conjunction of those answers.
   */
  ghost function AllEquivalent<K, A>(m1: map<K, A>, m2: map<K, A>, ks: set<K>, eqa: (A, A) -> bool): (r: bool)
    requires ks <= m1.Keys
    ensures r <==> forall k :: k in ks ==> k in m2 && eqa(m1[k], m2[k])
    decreases ks
  {
    if ks == {} then true
    else
      var k :| k in ks;
      AllEquivalent(m1, m2, ks - {k}, eqa) && (k in m2 && eqa(m1[k], m2[k]))
  }

  /** `MapKEq.eqv`: the key sets must be equal, then every key's values must be `EQA`-equivalent. */
  ghost function Eqv<K, A>(m1: map<K, A>, m2: map<K, A>, eqa: (A, A) -> bool): (r: bool)
    ensures m1.Keys != m2.Keys ==> !r
    ensures m1.Keys == m2.Keys ==> (r <==> forall k :: k in m1 ==> eqa(m1[k], m2[k]))
  {
    if m1.Keys == m2.Keys then AllEquivalent(m1, m2, m1.Keys, eqa) else false
  }

  /** `eqv` is an equivalence relation on maps whenever `EQA` is one on values. */
  lemma EqvIsEquivalence<K, A(!new)>(eqa: (A, A) -> bool, m1: map<K, A>, m2: map<K, A>, m3: map<K, A>)
    requires forall a :: eqa(a, a)
    requires forall a, b :: eqa(a, b) ==> eqa(b, a)
    requires forall a, b, c :: eqa(a, b) && eqa(b, c) ==> eqa(a, c)
    ensures Eqv(m1, m1, eqa)
    ensures Eqv(m1, m2, eqa) ==> Eqv(m2, m1, eqa)
    ensures Eqv(m1, m2, eqa) && Eqv(m2, m3, eqa) ==> Eqv(m1, m3, eqa)
  {
  }

  /** With structural equality on values, `eqv` is map equality. */
  lemma EqvStructural<K, A>(m1: map<K, A>, m2: map<K, A>)
    ensures Eqv(m1, m2, (a: A, b: A) => a == b) <==> m1 == m2
  {
  }

  /** `MapK.map(f)`. */
  function MapValues<K, A, B>(m: map<K, A>, f: A -> B): (r: map<K, B>)
    ensures r.Keys == m.Keys
    ensures forall k :: k in m ==> r[k] == f(m[k])
  {
    map k | k in m :: f(m[k])
  }

  /** `sequence(Option.applicative())` of a map of options: `Some` of the unwrapped map exactly when no value is `None`. */
  ghost function Sequence<K, B>(m: map<K, Option<B>>): (r: Option<map<K, B>>)
    ensures r.Some? <==> forall k :: k in m ==> m[k].Some?
    ensures r.Some? ==> r.value.Keys == m.Keys && forall k :: k in m ==> Some(r.value[k]) == m[k]
    decreases m.Keys
  {
    if m == map[] then Some(map[])
    else
      var k :| k in m;
      var rest := m - {k};
      assert rest.Keys < m.Keys;
      var tail := Sequence(rest);
      if m[k].None? then None
      else if tail.None? then
        var j :| j in rest && rest[j].None?;
        assert m[j].None?;
        None
      else
        assert forall j :: j in m ==> j == k || j in rest;
        Some(tail.value[k := m[k].value])
  }

  /** `MapKFunctorFilter.filterMap(f)`: `map(f)`, `sequence`, and the empty map when that gives `None`. */
  ghost function FilterMap<K, A, B>(m: map<K, A>, f: A -> Option<B>): (r: map<K, B>)
    ensures (forall k :: k in m ==> f(m[k]).Some?) ==> r.Keys == m.Keys && forall k :: k in m ==> Some(r[k]) == f(m[k])
    ensures (exists k :: k in m && f(m[k]).None?) ==> r == map[]
  {
    match Sequence(MapValues(m, f))
    case None => map[]
    case Some(r) => r
  }

  /** `filterMap` with a function that always keeps its argument is the identity. */
  lemma FilterMapSome<K, A>(m: map<K, A>)
    ensures FilterMap(m, (a: A) => Some(a)) == m
  {
  }

  /** Two `filterMap`s in a row are one `filterMap` along the Kleisli composition of the two functions. */
  lemma FilterMapComposition<K, A, B, C>(m: map<K, A>, f: A -> Option<B>, g: B -> Option<C>)
    ensures FilterMap(FilterMap(m, f), g) == FilterMap(m, (a: A) => match f(a) case None => None case Some(b) => g(b))
  {
  }
}
