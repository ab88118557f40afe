/**
 * Arrow's `Either<A, B>` and the operations whose behaviour the Either test
 * suite fixes. A Kotlin lambda that is only called for its value (`{ b }`)
 * is passed as that value; Kotlin's `null` is `None`.
 */
module EitherCore {

  import opened Options
  import opened Typeclasses

  datatype Either<+L, +R> = Left(left: L) | Right(right: R)

  /** The `Either` semigroup: lefts combine with the left semigroup, rights with the right one, and a `Left` beats a `Right`. */
  function Combine<L, R>(sgl: (L, L) -> L, sgr: (R, R) -> R, x: Either<L, R>, y: Either<L, R>): (r: Either<L, R>)
    ensures r.Left? <==> x.Left? || y.Left?
    ensures x.Right? && y.Right? ==> r == Right(sgr(x.right, y.right))
    ensures x.Left? && y.Left? ==> r == Left(sgl(x.left, y.left))
    ensures x.Left? && y.Right? ==> r == x
    ensures x.Right? && y.Left? ==> r == y
  {
    match (x, y)
    case (Left(a), Left(b)) => Left(sgl(a, b))
    case (Left(_), Right(_)) => x
    case (Right(_), Left(_)) => y
    case (Right(a), Right(b)) => Right(sgr(a, b))
  }

  /** `Either.monoid(MOL, MOR)`: only the semigroup of the left side is used. */
  function EitherMonoid<L, R>(sgl: (L, L) -> L, mr: Monoid<R>): (r: Monoid<Either<L, R>>)
    ensures r.empty == Right(mr.empty)
  {
    Monoid(Right(mr.empty), (x, y) => Combine(sgl, mr.combine, x, y))
  }

  /** The monoid laws hold of `Either.monoid` whenever they hold of its parts. */
  lemma EitherMonoidIsMonoid<L(!new), R(!new)>(sgl: (L, L) -> L, mr: Monoid<R>)
    requires Associative(sgl)
    requires IsMonoid(mr)
    ensures IsMonoid(EitherMonoid(sgl, mr))
  {
  }

  /** `getOrElse { default }`. */
  function GetOrElse<L, R>(e: Either<L, R>, default: R): (r: R)
    ensures e.Right? ==> r == e.right
    ensures e.Left? ==> r == default
  {
    match e
    case Left(_) => default
    case Right(b) => b
  }

  /** `orNull()`. */
  function OrNull<L, R>(e: Either<L, R>): (r: Option<R>)
    ensures r.Some? <==> e.Right?
    ensures e.Right? ==> r == Some(e.right)
  {
    match e
    case Left(_) => None
    case Right(b) => Some(b)
  }

  /** `getOrHandle(f)`: a `Left` is turned into a value by the handler. */
  function GetOrHandle<L, R>(e: Either<L, R>, handle: L -> R): (r: R)
    ensures e.Right? ==> r == e.right
    ensures e.Left? ==> r == handle(e.left)
  {
    match e
    case Left(a) => handle(a)
    case Right(b) => b
  }

  /** `getOrElse` is `getOrHandle` with a handler that ignores the left value. */
  lemma GetOrElseIsConstantHandler<L, R>(e: Either<L, R>, default: R)
    ensures GetOrElse(e, default) == GetOrHandle(e, (_: L) => default)
  {
  }

  /** `filterOrElse(predicate, { default })`, with the predicate as `keep`. */
  function FilterOrElse<L, R>(e: Either<L, R>, keep: R -> bool, default: L): (r: Either<L, R>)
    ensures r.Right? <==> e.Right? && keep(e.right)
    ensures r.Right? || e.Left? ==> r == e
    ensures e.Right? && !keep(e.right) ==> r == Left(default)
  {
    match e
    case Left(_) => e
    case Right(b) => if keep(b) then e else Left(default)
  }

  /** `filterOrOther(predicate, default)`, with the predicate as `keep`: the left value is computed from the rejected right value. */
  function FilterOrOther<L, R>(e: Either<L, R>, keep: R -> bool, default: R -> L): (r: Either<L, R>)
    ensures r.Right? <==> e.Right? && keep(e.right)
    ensures r.Right? || e.Left? ==> r == e
    ensures e.Right? && !keep(e.right) ==> r == Left(default(e.right))
  {
    match e
    case Left(_) => e
    case Right(b) => if keep(b) then e else Left(default(b))
  }

  /** `filterOrElse` is `filterOrOther` with a default that ignores the rejected value. */
  lemma FilterOrElseIsConstantOther<L, R>(e: Either<L, R>, keep: R -> bool, default: L)
    ensures FilterOrElse(e, keep, default) == FilterOrOther(e, keep, (_: R) => default)
  {
  }

  /** `leftIfNull { default }`: a `Right(null)` becomes `Left(default)`. */
  function LeftIfNull<L, R>(e: Either<L, Option<R>>, default: L): (r: Either<L, R>)
    ensures e == Right(None) <==> r == Left(default) && !e.Left?
    ensures e.Left? ==> r == Left(e.left)
    ensures e.Right? && e.right.Some? ==> r == Right(e.right.value)
  {
    match e
    case Left(a) => Left(a)
    case Right(None) => Left(default)
    case Right(Some(b)) => Right(b)
  }

  /** `rightIfNotNull { default }` on a nullable value. */
  function RightIfNotNull<L, R>(o: Option<R>, default: L): (r: Either<L, R>)
    ensures r.Right? <==> o.Some?
    ensures o.Some? ==> r == Right(o.value)
    ensures o.None? ==> r == Left(default)
  {
    match o
    case None => Left(default)
    case Some(b) => Right(b)
  }

  /** `rightIfNotNull` is `leftIfNull` applied to the value wrapped in a `Right`. */
  lemma RightIfNotNullViaLeftIfNull<L, R>(o: Option<R>, default: L)
    ensures RightIfNotNull(o, default) == LeftIfNull(Right(o), default)
  {
  }

  /** `rightIfNotNull` and `orNull` undo each other. */
  lemma RightIfNotNullOrNull<L, R>(o: Option<R>, default: L)
    ensures OrNull(RightIfNotNull(o, default)) == o
  {
  }

  /** `swap()`. */
  function Swap<L, R>(e: Either<L, R>): (r: Either<R, L>)
    ensures r.Left? <==> e.Right?
    ensures e.Left? ==> r.right == e.left
    ensures e.Right? ==> r.left == e.right
  {
    match e
    case Left(a) => Right(a)
    case Right(b) => Left(b)
  }

  /** Swapping twice gives the original value back. */
  lemma SwapInvolution<L, R>(e: Either<L, R>)
    ensures Swap(Swap(e)) == e
  {
  }

  /** `toOption()`: the right value if there is one. */
  function ToOption<L, R>(e: Either<L, R>): (r: Option<R>)
    ensures r.Some? <==> e.Right?
    ensures r.Some? ==> r.value == e.right
  {
    match e
    case Left(_) => None
    case Right(b) => Some(b)
  }

  /** `contains(elem)`: only a `Right` holding `elem` contains it. */
  function Contains<L, R(==)>(e: Either<L, R>, elem: R): (r: bool)
    ensures r <==> e == Right(elem)
  {
    match e
    case Left(_) => false
    case Right(b) => b == elem
  }

  /** `contains(x)` holds exactly when `toOption()` is `Some(x)`. */
  lemma ContainsIffToOption<L, R>(e: Either<L, R>, elem: R)
    ensures Contains(e, elem) <==> ToOption(e) == Some(elem)
  {
  }

  /** `mapLeft(f)`: only a left value is transformed. */
  function MapLeft<L, L2, R>(e: Either<L, R>, f: L -> L2): (r: Either<L2, R>)
    ensures r.Left? <==> e.Left?
    ensures e.Left? ==> r.left == f(e.left)
    ensures e.Right? ==> r.right == e.right
  {
    match e
    case Left(a) => Left(f(a))
    case Right(b) => Right(b)
  }

  /** `mapLeft` is the functor map of the swapped value. */
  lemma MapLeftIdentityAndComposition<L, L2, L3, R>(e: Either<L, R>, f: L -> L2, g: L2 -> L3)
    ensures MapLeft(e, (a: L) => a) == e
    ensures MapLeft(MapLeft(e, f), g) == MapLeft(e, (a: L) => g(f(a)))
  {
  }

  /** `Either.cond(test, { ifTrue }, { ifFalse })`. */
  function Cond<L, R>(test: bool, ifTrue: R, ifFalse: L): (r: Either<L, R>)
    ensures r.Right? <==> test
    ensures r.Right? ==> r.right == ifTrue
    ensures r.Left? ==> r.left == ifFalse
  {
    if test then Right(ifTrue) else Left(ifFalse)
  }

  /** Negating the test of `cond` swaps its result. */
  lemma CondNegated<L, R>(test: bool, ifTrue: R, ifFalse: L)
    ensures Cond(!test, ifFalse, ifTrue) == Swap(Cond(test, ifTrue, ifFalse))
  {
  }

  /** `handleErrorWith(f)` of the `ApplicativeError` instance: a `Left` is replaced by the handler's result. */
  function HandleErrorWith<L, R>(e: Either<L, R>, handle: L -> Either<L, R>): (r: Either<L, R>)
    ensures e.Left? ==> r == handle(e.left)
    ensures e.Right? ==> r == e
  {
    match e
    case Left(a) => handle(a)
    case Right(_) => e
  }

  /** `handleErrorWith` with a handler that always succeeds never leaves a `Left`, and agrees with `getOrHandle`. */
  lemma HandleErrorWithRecovers<L, R>(e: Either<L, R>, handle: L -> R)
    ensures HandleErrorWith(e, (a: L) => Right(handle(a))) == Right(GetOrHandle(e, handle))
  {
  }

  /** The instantiation the Either test suite mostly uses. */
  type I = Either<int, int>

  /**
   * The equations the Either test suite checks, for integers and strings.
   * `!Right(a).contains(b)` is stated for `a != b`: at `a == b` it is false.
   */
  lemma EitherTestCases(a: int, b: int, t: bool, s: string, u: string)
    ensures EitherMonoid((x: string, y: string) => x + y, Monoid("", (x: string, y: string) => x + y)).empty == Right("")
    ensures Combine((x: string, y: string) => x + y, (x: string, y: string) => x + y, Right(s), Right(u)) == Right(s + u)
    ensures Combine((x: string, y: string) => x + y, (x: string, y: string) => x + y, Left(s), Left(u)) == Left(s + u)
    ensures Combine((x: string, y: string) => x + y, (x: string, y: string) => x + y, Left(s), Right(u)) == Left(s)
    ensures Combine((x: string, y: string) => x + y, (x: string, y: string) => x + y, Right(u), Left(s)) == Left(s)
    ensures GetOrElse(I.Right(a), b) == a && GetOrElse(I.Left(a), b) == b
    ensures OrNull(I.Right(a)) == Some(a)
    ensures GetOrHandle(I.Right(a), (x: int) => b) == a && GetOrHandle(I.Left(a), (x: int) => x + b) == a + b
    ensures FilterOrElse(I.Right(a), (x: int) => x > a - 1, b) == I.Right(a)
    ensures FilterOrElse(I.Right(a), (x: int) => x > a + 1, b) == I.Left(b)
    ensures FilterOrElse(I.Left(a), (x: int) => x > a - 1, b) == I.Left(a)
    ensures FilterOrElse(I.Left(a), (x: int) => x > a + 1, b) == I.Left(a)
    ensures FilterOrOther(I.Right(a), (x: int) => x > a - 1, (x: int) => b + a) == I.Right(a)
    ensures FilterOrOther(I.Right(a), (x: int) => x > a + 1, (x: int) => b + a) == I.Left(b + a)
    ensures FilterOrOther(I.Left(a), (x: int) => x > a - 1, (x: int) => b + a) == I.Left(a)
    ensures FilterOrOther(I.Left(a), (x: int) => x > a + 1, (x: int) => b + a) == I.Left(a)
    ensures LeftIfNull(Either<int, Option<int>>.Right(Some(a)), b) == I.Right(a) && LeftIfNull(Either<int, Option<int>>.Right(None), b) == I.Left(b)
    ensures LeftIfNull(Either<int, Option<int>>.Left(a), b) == I.Left(a)
    ensures RightIfNotNull(Option<int>.None, b) == I.Left(b) && RightIfNotNull(Some(a), b) == I.Right(a)
    ensures Swap(I.Left(a)) == I.Right(a) && Swap(I.Right(a)) == I.Left(a)
    ensures ToOption(I.Right(a)) == Some(a) && ToOption(I.Left(a)) == None
    ensures Contains(I.Right(a), a) && (a != b ==> !Contains(I.Right(a), b)) && !Contains(I.Left(a), a)
    ensures MapLeft(I.Right(a), (x: int) => x + 1) == I.Right(a) && MapLeft(I.Left(b), (x: int) => x + 1) == I.Left(b + 1)
    ensures Cond(t, a, s) == if t then Right(a) else Left(s)
    ensures HandleErrorWith(I.Left(a), (x: int) => I.Right(b)) == I.Right(b)
    ensures HandleErrorWith(I.Right(a), (x: int) => I.Right(b)) == I.Right(a)
  {
  }
}
