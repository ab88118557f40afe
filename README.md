# Arrow core instances in Dafny

A Dafny model of four small, pure components of the Arrow functional-programming
library for Kotlin, with proofs of their laws:

- **String optics.** The `Cons` and `Snoc` prisms split a string into head and
  tail, or into init and last character. `String.traversal()` (also `each()`),
  `filterIndex().filter(p)` and `index().index(i)` modify characters by position.
  Traversals are taken with the identity applicative, so `modifyF` becomes `modify`.
- **MapK instances.** The key-wise semigroup and monoid over a value semigroup,
  `Eq` up to a value equality, and the all-or-nothing `filterMap`.
- **`Monoid.imap`.** The `Invariant` instance of `Monoid`: it transports a monoid
  along `f: A -> B` and `g: B -> A`.
- **Either operations.** The monoid, `getOrElse`, `orNull`, `getOrHandle`,
  `filterOrElse`, `filterOrOther`, `leftIfNull`, `rightIfNotNull`, `swap`,
  `toOption`, `contains`, `mapLeft`, `cond` and `handleErrorWith`. They are defined
  by the equations the Either test suite checks.

Typeclass instances become explicit values:
- a semigroup is its operation `(A, A) -> A`;
- a monoid is the datatype `Typeclasses.Monoid(empty, combine)`;
- an `Eq` is a function `(A, A) -> bool`.

The laws are ghost predicates in `Typeclasses`. Kotlin's `null` is `Options.None`.
A lambda that the source calls only for its value (`getOrElse { b }`) is passed
as that value.

Files: `Options.dfy`, `Typeclasses.dfy`, `MonoidInvariant.dfy`, `Either.dfy`,
`MapK.dfy`, `StringOptics.dfy`.

MapK folds visit the keys of a Dafny `map` in an unspecified order. Every
result is stated pointwise, so no result depends on that order. The MapK
functions are therefore ghost.

## Model

| member | source | states |
|---|---|---|
| `StringOptics.ConsGetOrModify` | modules/optics/arrow-optics/src/main/kotlin/arrow/optics/extensions/string.kt:124 | focuses exactly the non-empty strings; the focus `(h, t)` rebuilds the string as `[h] + t`; a miss returns the input unchanged |
| `StringOptics.ConsReverseGet` | modules/optics/arrow-optics/src/main/kotlin/arrow/optics/extensions/string.kt:125 | `h + t` has `h` first and `t` after it |
| `StringOptics.ConsRoundTrip` | modules/optics/arrow-optics/src/main/kotlin/arrow/optics/extensions/string.kt:124-125 | a non-empty `s` gives `Right((s[0], s[1..]))`, and `reverseGet` of that is `s` |
| `StringOptics.ConsReverseRoundTrip` | modules/optics/arrow-optics/src/main/kotlin/arrow/optics/extensions/string.kt:124-125 | `getOrModify(reverseGet(h, t)) == Right((h, t))` for every `h`, `t` |
| `StringOptics.Cons` | modules/optics/arrow-optics/src/main/kotlin/arrow/optics/extensions/string.kt:123-126 | the `cons()` prism's `getOrModify` is `ConsGetOrModify` and its `reverseGet` of `(h, t)` is `ConsReverseGet(h, t)` |
| `StringOptics.ConsLawful` | modules/optics/arrow-optics/src/main/kotlin/arrow/optics/extensions/string.kt:123-126 | the `Cons` prism satisfies the prism laws |
| `StringOptics.SnocGetOrModify` | modules/optics/arrow-optics/src/main/kotlin/arrow/optics/extensions/string.kt:146 | focuses exactly the non-empty strings; the focus `(i, l)` rebuilds the string as `i + [l]`; a miss returns the input unchanged |
| `StringOptics.SnocReverseGet` | modules/optics/arrow-optics/src/main/kotlin/arrow/optics/extensions/string.kt:147 | `i + l` is `i` followed by `l` |
| `StringOptics.SnocRoundTrip` | modules/optics/arrow-optics/src/main/kotlin/arrow/optics/extensions/string.kt:146-147 | a non-empty `s` gives `Right((s[..|s|-1], s[|s|-1]))`, and the two parts rebuild `s` |
| `StringOptics.SnocReverseRoundTrip` | modules/optics/arrow-optics/src/main/kotlin/arrow/optics/extensions/string.kt:146-147 | `getOrModify(i + [l]) == Right((i, l))` |
| `StringOptics.Snoc` | modules/optics/arrow-optics/src/main/kotlin/arrow/optics/extensions/string.kt:145-148 | the `snoc()` prism's `getOrModify` is `SnocGetOrModify` and its `reverseGet` of `(i, l)` is `SnocReverseGet(i, l)` |
| `StringOptics.SnocLawful` | modules/optics/arrow-optics/src/main/kotlin/arrow/optics/extensions/string.kt:145-148 | the `Snoc` prism satisfies the prism laws |
| `StringOptics.TraversalModify` | modules/optics/arrow-optics/src/main/kotlin/arrow/optics/extensions/string.kt:28-31 | same length as the input, and the `k`-th char is `f(s[k])` |
| `StringOptics.TraversalLaws` | modules/optics/arrow-optics/src/main/kotlin/arrow/optics/extensions/string.kt:28-31 | modifying with the identity changes nothing; two modifications compose into one |
| `StringOptics.MapIndexedFrom` | modules/optics/arrow-optics/src/main/kotlin/arrow/optics/extensions/string.kt:75 | same length, and the `k`-th char is `f(start + k, s[k])` |
| `StringOptics.FilterIndexModify` | modules/optics/arrow-optics/src/main/kotlin/arrow/optics/extensions/string.kt:73-75 | chars at indices satisfying `p` become `f(s[k])`; every other position is unchanged; the length is kept |
| `StringOptics.FilterIndexExtremes` | modules/optics/arrow-optics/src/main/kotlin/arrow/optics/extensions/string.kt:73-75 | filtering every index is the full traversal; filtering none is the identity |
| `StringOptics.IndexGetOrModify` | modules/optics/arrow-optics/src/main/kotlin/arrow/optics/extensions/string.kt:101-104 | focuses exactly when `0 <= i < |s|`, and the focus is `s[i]`; otherwise returns `s` |
| `StringOptics.IndexSet` | modules/optics/arrow-optics/src/main/kotlin/arrow/optics/extensions/string.kt:101-104 | the length is kept; no position other than `i` changes; position `i` becomes `c` when in range |
| `StringOptics.IndexLaws` | modules/optics/arrow-optics/src/main/kotlin/arrow/optics/extensions/string.kt:97-104 | get-set, set-get and set-set laws; an out-of-range index gives no focus and setting through it is the identity |
| `StringOptics.IndexIsFilterOfOne` | modules/optics/arrow-optics/src/main/kotlin/arrow/optics/extensions/string.kt:73-104 | setting via `index(i)` equals modifying via `filter { it == i }` |
| `MapK.Get` | modules/core/arrow-core/src/main/kotlin/arrow/core/extensions/mapk.kt:62-63 | `m[k]` is non-null exactly for keys of `m`, and then holds `m[k]` |
| `MapK.MaybeCombine` | modules/core/arrow-core/src/main/kotlin/arrow/core/extensions/mapk.kt:62-63 | `a.maybeCombine(null)` is `a`; otherwise `a ⊕ b` |
| `MapK.MaybeCombineLeft` | modules/core/arrow-core/src/main/kotlin/arrow/core/extensions/mapk.kt:63 | corrected fold step: the accumulator's value stays on the left of `⊕`; a missing value yields the other unchanged |
| `MapK.FoldCombine` | modules/core/arrow-core/src/main/kotlin/arrow/core/extensions/mapk.kt:62-63 | the fold's keys are the union; keys in one map keep their value; shared keys get the two values combined in the chosen order |
| `MapK.CombineAsWritten` | modules/core/arrow-core/src/main/kotlin/arrow/core/extensions/mapk.kt:61-64 | keys are `keys(m1) ∪ keys(m2)`; single-side keys keep their value; shared keys get `v1 ⊕ v2` when `|m1| < |m2|` and `v2 ⊕ v1` otherwise |
| `MapK.CombineAsWrittenEqualSizeReversed` | modules/core/arrow-core/src/main/kotlin/arrow/core/extensions/mapk.kt:63 | two maps of equal size combine in reversed order: `{0:"a"} ⊕ {0:"b"}` is `{0:"ba"}` |
| `MapK.ConcatAssociative` | modules/core/arrow-core/src/main/kotlin/arrow/core/extensions/mapk.kt:59 | the counterexample's value semigroup, string concatenation, is associative |
| `MapK.CombineAsWrittenLeftNested` | modules/core/arrow-core/src/main/kotlin/arrow/core/extensions/mapk.kt:61-64 | with concatenation, `({0:a} ⊕ {0:b}) ⊕ {0:c, 1:d}` has `"bac"` at key 0 |
| `MapK.CombineAsWrittenRightNested` | modules/core/arrow-core/src/main/kotlin/arrow/core/extensions/mapk.kt:61-64 | with concatenation, `{0:a} ⊕ ({0:b} ⊕ {0:c, 1:d})` has `"abc"` at key 0 |
| `MapK.CombineAsWrittenNotAssociative` | modules/core/arrow-core/src/main/kotlin/arrow/core/extensions/mapk.kt:61-64 | with a lawful (associative) but non-commutative value semigroup, the as-written combine is not associative |
| `MapK.Combine` | modules/core/arrow-core/src/main/kotlin/arrow/core/extensions/mapk.kt:61-64 | corrected combine: key union, single-side keys keep their value, shared keys always get `m1[k] ⊕ m2[k]` |
| `MapK.CombineAgreesWhenFirstSmaller` | modules/core/arrow-core/src/main/kotlin/arrow/core/extensions/mapk.kt:62 | when `|m1| < |m2|` the as-written and corrected combines coincide |
| `MapK.CombineAssociative` | modules/core/arrow-core/src/main/kotlin/arrow/core/extensions/mapk.kt:61-64 | the corrected combine is associative whenever the value semigroup is |
| `MapK.Empty` | modules/core/arrow-core/src/main/kotlin/arrow/core/extensions/mapk.kt:90 | `empty()` has no entries |
| `MapK.CombineEmpty` | modules/core/arrow-core/src/main/kotlin/arrow/core/extensions/mapk.kt:61-64 | combining with `empty()` on either side returns the map unchanged, for both versions |
| `MapK.MapKMonoid` | modules/core/arrow-core/src/main/kotlin/arrow/core/extensions/mapk.kt:86-91 | the monoid's `empty` is the empty map; its `combine` is the corrected `MapK.Combine` (see Findings), not the combine of lines 61-64 as written |
| `MapK.MapKMonoidIsMonoid` | modules/core/arrow-core/src/main/kotlin/arrow/core/extensions/mapk.kt:86-91 | the (corrected) MapK monoid satisfies the monoid laws when the value semigroup is associative |
| `MapK.AllEquivalent` | modules/core/arrow-core/src/main/kotlin/arrow/core/extensions/mapk.kt:102-106 | the `map`/`fold(true, &&)` over keys holds iff every key is in `b` with an `EQA`-equivalent value |
| `MapK.Eqv` | modules/core/arrow-core/src/main/kotlin/arrow/core/extensions/mapk.kt:100-107 | false whenever the key sets differ; with equal key sets, true iff every key's values are `EQA`-equivalent |
| `MapK.EqvIsEquivalence` | modules/core/arrow-core/src/main/kotlin/arrow/core/extensions/mapk.kt:100-107 | `eqv` is reflexive, symmetric and transitive when `EQA` is |
| `MapK.EqvStructural` | modules/core/arrow-core/src/main/kotlin/arrow/core/extensions/mapk.kt:100-107 | with structural value equality, `eqv` is map equality |
| `MapK.MapValues` | modules/core/arrow-core/src/main/kotlin/arrow/core/extensions/mapk.kt:72-73 | `map(f)` keeps the keys and applies `f` to each value |
| `MapK.Sequence` | modules/core/arrow-core/src/main/kotlin/arrow/core/extensions/mapk.kt:70 | `sequence` is `Some` iff every value is `Some`, and then holds the unwrapped map |
| `MapK.FilterMap` | modules/core/arrow-core/src/main/kotlin/arrow/core/extensions/mapk.kt:69-70 | if `f` is `Some` on every value, each key maps to its unwrapped value; if any `f(v)` is `None`, the result is the empty map |
| `MapK.FilterMapSome` | modules/core/arrow-core/src/main/kotlin/arrow/core/extensions/mapk.kt:69-70 | `filterMap(::Some)` is the identity |
| `MapK.FilterMapComposition` | modules/core/arrow-core/src/main/kotlin/arrow/core/extensions/mapk.kt:69-70 | two `filterMap`s equal one along the Kleisli composition |
| `MonoidInvariant.Imap` | modules/core/arrow-core/src/main/kotlin/arrow/core/extensions/MonoidInvariant.kt:12-20 | `empty` is `f(M.empty)`; `combine(x, y)` is `f(g(x) ⊕ g(y))` |
| `MonoidInvariant.ImapAssociative` | modules/core/arrow-core/src/main/kotlin/arrow/core/extensions/MonoidInvariant.kt:16-19 | if `g(f(a)) == a` for all `a` and the base combine is associative, so is the transported `f(g(x) ⊕ g(y))` |
| `MonoidInvariant.ImapIdentity` | modules/core/arrow-core/src/main/kotlin/arrow/core/extensions/MonoidInvariant.kt:14-19 | if `f` and `g` are mutually inverse, the transported `f(M.empty)` is a left and right identity |
| `MonoidInvariant.ImapIsMonoid` | modules/core/arrow-core/src/main/kotlin/arrow/core/extensions/MonoidInvariant.kt:12-20 | `imap` along an isomorphism maps lawful monoids to lawful monoids |
| `MonoidInvariant.InvariantIdentity` | modules/core/arrow-core-data/src/test/kotlin/arrow/typeclasses/MonoidTest.kt:13-19 | `imap(id, id)` has the same `empty` and the same `combine` as the original |
| `MonoidInvariant.InvariantComposition` | modules/core/arrow-core-data/src/test/kotlin/arrow/typeclasses/MonoidTest.kt:13-19 | `imap(f1, g1)` then `imap(f2, g2)` equals `imap(f2∘f1, g1∘g2)` |
| `EitherCore.Combine` | modules/core/arrow-core-data/src/test/kotlin/arrow/core/EitherTest.kt:71-88 | the result is a Left iff either side is; two Rights combine on the right; two Lefts combine on the left; a Left beats a Right in either order |
| `EitherCore.EitherMonoid` | modules/core/arrow-core-data/src/test/kotlin/arrow/core/EitherTest.kt:65-69 | `empty` is `Right` of the right-side monoid's `empty` |
| `EitherCore.EitherMonoidIsMonoid` | modules/core/arrow-core-data/src/test/kotlin/arrow/core/EitherTest.kt:56 | the Either monoid satisfies the monoid laws when the left semigroup and the right monoid do |
| `EitherCore.GetOrElse` | modules/core/arrow-core-data/src/test/kotlin/arrow/core/EitherTest.kt:90-95 | the Right value, or the default for a Left |
| `EitherCore.OrNull` | modules/core/arrow-core-data/src/test/kotlin/arrow/core/EitherTest.kt:97-101 | non-null exactly for a Right, and then its value |
| `EitherCore.GetOrHandle` | modules/core/arrow-core-data/src/test/kotlin/arrow/core/EitherTest.kt:103-108 | the Right value, or the handler applied to the Left value |
| `EitherCore.GetOrElseIsConstantHandler` | modules/core/arrow-core-data/src/test/kotlin/arrow/core/EitherTest.kt:90-108 | `getOrElse(d)` equals `getOrHandle { d }` |
| `EitherCore.FilterOrElse` | modules/core/arrow-core-data/src/test/kotlin/arrow/core/EitherTest.kt:110-119 | the result is a Right iff the input is a Right satisfying the predicate, and is then the input; a rejected Right becomes `Left(default)`; a Left is unchanged |
| `EitherCore.FilterOrOther` | modules/core/arrow-core-data/src/test/kotlin/arrow/core/EitherTest.kt:121-130 | as `FilterOrElse`, with the default computed from the rejected right value |
| `EitherCore.FilterOrElseIsConstantOther` | modules/core/arrow-core-data/src/test/kotlin/arrow/core/EitherTest.kt:110-130 | `filterOrElse` equals `filterOrOther` with a constant default |
| `EitherCore.LeftIfNull` | modules/core/arrow-core-data/src/test/kotlin/arrow/core/EitherTest.kt:132-138 | exactly `Right(null)` becomes `Left(default)`; a Left and a non-null Right are kept |
| `EitherCore.RightIfNotNull` | modules/core/arrow-core-data/src/test/kotlin/arrow/core/EitherTest.kt:140-145 | a Right exactly for a non-null value, holding it; null becomes `Left(default)` |
| `EitherCore.RightIfNotNullViaLeftIfNull` | modules/core/arrow-core-data/src/test/kotlin/arrow/core/EitherTest.kt:132-145 | `x.rightIfNotNull { d }` equals `Right(x).leftIfNull { d }` |
| `EitherCore.RightIfNotNullOrNull` | modules/core/arrow-core-data/src/test/kotlin/arrow/core/EitherTest.kt:97-145 | `orNull` undoes `rightIfNotNull` |
| `EitherCore.Swap` | modules/core/arrow-core-data/src/test/kotlin/arrow/core/EitherTest.kt:147-152 | exchanges the sides, keeping the value |
| `EitherCore.SwapInvolution` | modules/core/arrow-core-data/src/test/kotlin/arrow/core/EitherTest.kt:147-152 | swapping twice is the identity |
| `EitherCore.ToOption` | modules/core/arrow-core-data/src/test/kotlin/arrow/core/EitherTest.kt:154-159 | `Some` exactly for a Right, holding its value; a Left gives `None` |
| `EitherCore.Contains` | modules/core/arrow-core-data/src/test/kotlin/arrow/core/EitherTest.kt:161-167 | true exactly for `Right(elem)` |
| `EitherCore.ContainsIffToOption` | modules/core/arrow-core-data/src/test/kotlin/arrow/core/EitherTest.kt:154-167 | `contains(x)` iff `toOption() == Some(x)` |
| `EitherCore.MapLeft` | modules/core/arrow-core-data/src/test/kotlin/arrow/core/EitherTest.kt:169-175 | keeps the side; transforms only a Left value; a Right value is unchanged |
| `EitherCore.MapLeftIdentityAndComposition` | modules/core/arrow-core-data/src/test/kotlin/arrow/core/EitherTest.kt:169-175 | `mapLeft(id)` is the identity; `mapLeft` composes |
| `EitherCore.Cond` | modules/core/arrow-core-data/src/test/kotlin/arrow/core/EitherTest.kt:177-182 | a Right iff the test holds, holding `ifTrue`; otherwise `Left(ifFalse)` |
| `EitherCore.CondNegated` | modules/core/arrow-core-data/src/test/kotlin/arrow/core/EitherTest.kt:147-182 | negating the test of `cond` swaps its result |
| `EitherCore.HandleErrorWith` | modules/core/arrow-core-data/src/test/kotlin/arrow/core/EitherTest.kt:184-189 | a Left is replaced by the handler's result; a Right is unchanged |
| `EitherCore.HandleErrorWithRecovers` | modules/core/arrow-core-data/src/test/kotlin/arrow/core/EitherTest.kt:103-189 | recovering with an always-Right handler equals `Right(getOrHandle(h))` |
| `EitherCore.EitherTestCases` | modules/core/arrow-core-data/src/test/kotlin/arrow/core/EitherTest.kt:65-189 | each equation of the named test cases, for the test suite's integer and string instances; line 164's `!Right(a).contains(b)` is stated for `a != b`, because at `a == b` it is false |

## Left out

- Higher-kinded emulation (`Kind`, `fix()`, `@extension`) and typeclass lookup: instances are explicit parameters.
- Traversal over an arbitrary `Applicative`: only the identity applicative (`modify`) is modelled, for `traversal`, `filterIndex` and `index`.
- UTF-16: a Kotlin `Char` is a UTF-16 code unit, a Dafny `char` a Unicode scalar value. Surrogate pairs are not modelled.
- Laziness: `getOrElse`, `filterOrElse`, `leftIfNull`, `rightIfNotNull` and `cond` take their Kotlin lambdas as already-computed values.
- The Either implementation is not part of this model. The Either functions are defined by the equations its test suite checks.
- `EitherCore.Contains` uses Dafny equality for Kotlin's `==`.
- `MapK.Get`: value types are taken as non-nullable. In Kotlin a `MapK<K, A>` may store `null`, and then `m[k]` is `null` both for a missing key and for a key stored with `null`. So `eqv` answers `false` at such a key even for two equal maps (`?: false`), and `maybeCombine` passes over a stored `null` instead of combining with it. `MapK.Eqv`, `MapK.EqvIsEquivalence` (its reflexivity) and `MapK.FoldCombine` do not capture these cases.
- `EitherCore.EitherTestCases`: the equation `!Right(a).contains(b)` of the `contains` test is stated only for `a != b`. At `a == b` it is false, since `Right(a).contains(a)` holds.
- `MapK.Eqv`: keys are compared with structural equality, because the `SetK.eq(EQK())` key-set comparison is not part of this model. A non-structural `EQK` is not captured. `b[key]` already looks keys up structurally.
- `MapK.Sequence`: `MapK.traverse` is not part of this model. `sequence` is modelled as the key-wise Option applicative that its use in `filterMap` needs.
- Iteration order of Kotlin maps: folds visit keys in an unspecified order, and every stated result is independent of it.
- `MapKHash.hash`: it depends on the fold order of values and on JVM hash codes. `MapKShow` is `toString`.
- `MapKFunctor`, `MapKFoldable`, `MapKTraverse`, `MapKApply`: these delegate to `MapK` methods that are not part of this model. Only `map` is modelled, as `MapValues`.
- The remaining laws run by the Either test suite (bifunctor, monad error, traverse, bitraverse, semigroupK, show, hash): only the monoid laws are proved.
- The effect runtime (`StateT` bracket and async, the Reactor connection, recursion schemes, benchmarks, query-language instances): not a pure algebraic component; out of scope.

## Findings

| source | as written | input that shows it | evidently intended | confidence | as-written member | corrected member |
|---|---|---|---|---|---|---|
| modules/core/arrow-core/src/main/kotlin/arrow/core/extensions/mapk.kt:63 | when `m1` is not smaller than `m2`, a shared key gets `m2[k] ⊕ m1[k]`, while line 62 gives `m1[k] ⊕ m2[k]`; for a non-commutative value semigroup the MapK semigroup is then not associative | string concatenation, `m1 = {0: "a"}`, `m2 = {0: "b"}`, `m3 = {0: "c", 1: "d"}`: `(m1 ⊕ m2) ⊕ m3` has `"bac"` at key 0, `m1 ⊕ (m2 ⊕ m3)` has `"abc"` | both branches combine as `m1[k] ⊕ m2[k]` (line 63 as `my[k]?.combine(a) ?: a`), so the semigroup law holds | medium, not executed | `MapK.CombineAsWrittenNotAssociative` | `MapK.CombineAssociative` |
