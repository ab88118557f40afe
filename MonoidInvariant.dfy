/**
 * The `Invariant` instance of `Monoid`: `imap(f, g)` transports a monoid on `A`
 * to one on `B` along `f: A -> B` and `g: B -> A`.
 */
module MonoidInvariant {

  import opened Typeclasses

  /** `empty` is `f` of the base `empty`; `combine` goes through `g`, combines in the base monoid and comes back through `f`. */
  function Imap<A, B(!new)>(m: Monoid<A>, f: A -> B, g: B -> A): (r: Monoid<B>)
    ensures r.empty == f(m.empty)
    ensures forall x, y :: r.combine(x, y) == f(m.combine(g(x), g(y)))
  {
    Monoid(f(m.empty), (x, y) => f(m.combine(g(x), g(y))))
  }

  /** If `g` undoes `f`, the transported `combine` is associative whenever the base one is. */
  lemma ImapAssociative<A(!new), B(!new)>(m: Monoid<A>, f: A -> B, g: B -> A)
    requires Associative(m.combine)
    requires forall a :: g(f(a)) == a
    ensures Associative(Imap(m, f, g).combine)
  {
  }

  /** If `f` and `g` are mutually inverse, the transported `empty` is a two-sided identity whenever the base one is. */
  lemma ImapIdentity<A(!new), B(!new)>(m: Monoid<A>, f: A -> B, g: B -> A)
    requires LeftIdentity(m) && RightIdentity(m)
    requires forall a :: g(f(a)) == a
    requires forall b :: f(g(b)) == b
    ensures LeftIdentity(Imap(m, f, g)) && RightIdentity(Imap(m, f, g))
  {
  }

  /** Along an isomorphism, `imap` turns a lawful monoid into a lawful monoid. */
  lemma ImapIsMonoid<A(!new), B(!new)>(m: Monoid<A>, f: A -> B, g: B -> A)
    requires IsMonoid(m)
    requires forall a :: g(f(a)) == a
    requires forall b :: f(g(b)) == b
    ensures IsMonoid(Imap(m, f, g))
  {
  }

  /** Invariant identity law: `imap(id, id)` behaves as the original instance. */
  lemma InvariantIdentity<A(!new)>(m: Monoid<A>)
    ensures SameMonoid(Imap(m, (a: A) => a, (a: A) => a), m)
  {
  }

  /** Invariant composition law: two `imap`s in a row are one `imap` along the composed functions. */
  lemma InvariantComposition<A(!new), B(!new), C(!new)>(m: Monoid<A>, f1: A -> B, g1: B -> A, f2: B -> C, g2: C -> B)
    ensures SameMonoid(Imap(Imap(m, f1, g1), f2, g2), Imap(m, (a: A) => f2(f1(a)), (c: C) => g1(g2(c))))
  {
  }
}
