/**
 * The typeclasses the core is written against, as plain values: a semigroup is
 * its binary operation `(A, A) -> A`, a monoid a pair of `empty` and `combine`.
 * The laws are ghost predicates, as the law suites state them.
 */
module Typeclasses {

  /** A `Monoid<A>` instance: its `empty()` and its `combine`. */
  datatype Monoid<!A> = Monoid(empty: A, combine: (A, A) -> A)

  /** The semigroup law. */
  ghost predicate Associative<A(!new)>(op: (A, A) -> A) {
    forall x, y, z :: op(op(x, y), z) == op(x, op(y, z))
  }

  ghost predicate LeftIdentity<A(!new)>(m: Monoid<A>) {
    forall x :: m.combine(m.empty, x) == x
  }

  ghost predicate RightIdentity<A(!new)>(m: Monoid<A>) {
    forall x :: m.combine(x, m.empty) == x
  }

  /** The monoid laws. */
  ghost predicate IsMonoid<A(!new)>(m: Monoid<A>) {
    Associative(m.combine) && LeftIdentity(m) && RightIdentity(m)
  }

  /**
   * Two instances that agree on `empty` and on every `combine`: the
   * observational equality instances are compared with.
   */
  ghost predicate SameMonoid<A(!new)>(m1: Monoid<A>, m2: Monoid<A>) {
    m1.empty == m2.empty && forall x, y :: m1.combine(x, y) == m2.combine(x, y)
  }
}
