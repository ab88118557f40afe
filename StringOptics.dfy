/**
 * The optics instances for `String`: the `Cons` and `Snoc` prisms, the
 * `Each` traversal over every character, and the `FilterIndex` and `Index`
 * instances that focus characters by position. A Kotlin `String` is a
 * `seq<char>`, so `String.toListK()` is the identity here. Traversals are
 * modelled with the identity applicative: `modifyF` becomes `modify`.
 */
module StringOptics {

  import opened Options
  import opened EitherCore

  /** A `Prism<S, A>`: `getOrModify` returns the focus or gives the source back, `reverseGet` builds a source. */
  datatype Prism<!S, !A> = Prism(getOrModify: S -> Either<S, A>, reverseGet: A -> S)

  /** The prism laws: a focus rebuilds its source, a miss leaves the source as it was, and `reverseGet` is always matched. */
  ghost predicate PrismLaws<S(!new), A(!new)>(p: Prism<S, A>) {
    && (forall s :: p.getOrModify(s).Right? ==> p.reverseGet(p.getOrModify(s).right) == s)
    && (forall s :: p.getOrModify(s).Left? ==> p.getOrModify(s).left == s)
    && (forall a :: p.getOrModify(p.reverseGet(a)) == Right(a))
  }

  /** `StringCons.cons().getOrModify`: split off the first character. */
  function ConsGetOrModify(s: string): (r: Either<string, (char, string)>)
    ensures r.Right? <==> |s| > 0
    ensures r.Right? ==> [r.right.0] + r.right.1 == s
    ensures r.Left? ==> r.left == s
  {
    if |s| > 0 then Right((s[0], s[1..])) else Left(s)
  }

  /** `StringCons.cons().reverseGet`: `h + t`. */
  function ConsReverseGet(h: char, t: string): (r: string)
    ensures |r| == |t| + 1 && r[0] == h && r[1..] == t
  {
    [h] + t
  }

  /** `StringCons.cons()`: the prism made of the two functions above. */
  function Cons(): (r: Prism<string, (char, string)>)
    ensures forall s :: r.getOrModify(s) == ConsGetOrModify(s)
    ensures forall h, t :: r.reverseGet((h, t)) == ConsReverseGet(h, t)
  {
    Prism(ConsGetOrModify, (p: (char, string)) => ConsReverseGet(p.0, p.1))
  }

  /** A non-empty string splits into its first character and the rest, and the two rebuild it. */
  lemma ConsRoundTrip(s: string)
    requires |s| > 0
    ensures ConsGetOrModify(s) == Right((s[0], s[1..]))
    ensures ConsReverseGet(s[0], s[1..]) == s
  {
  }

  /** Splitting a string built from a head and a tail gives them back. */
  lemma ConsReverseRoundTrip(h: char, t: string)
    ensures ConsGetOrModify(ConsReverseGet(h, t)) == Right((h, t))
  {
  }

  lemma ConsLawful()
    ensures PrismLaws(Cons())
  {
  }

  /** `StringSnoc.snoc().getOrModify`: split off the last character. */
  function SnocGetOrModify(s: string): (r: Either<string, (string, char)>)
    ensures r.Right? <==> |s| > 0
    ensures r.Right? ==> r.right.0 + [r.right.1] == s
    ensures r.Left? ==> r.left == s
  {
    if |s| > 0 then Right((s[..|s| - 1], s[|s| - 1])) else Left(s)
  }

  /** `StringSnoc.snoc().reverseGet`: `i + l`. */
  function SnocReverseGet(i: string, l: char): (r: string)
    ensures |r| == |i| + 1 && r[..|i|] == i && r[|i|] == l
  {
    i + [l]
  }

  /** `StringSnoc.snoc()`: the prism made of the two functions above. */
  function Snoc(): (r: Prism<string, (string, char)>)
    ensures forall s :: r.getOrModify(s) == SnocGetOrModify(s)
    ensures forall i, l :: r.reverseGet((i, l)) == SnocReverseGet(i, l)
  {
    Prism(SnocGetOrModify, (p: (string, char)) => SnocReverseGet(p.0, p.1))
  }

  /** A non-empty string splits into everything but its last character and that character, and the two rebuild it. */
  lemma SnocRoundTrip(s: string)
    requires |s| > 0
    ensures SnocGetOrModify(s) == Right((s[..|s| - 1], s[|s| - 1]))
    ensures SnocReverseGet(s[..|s| - 1], s[|s| - 1]) == s
  {
  }

  /** Splitting a string built from an init and a last character gives them back. */
  lemma SnocReverseRoundTrip(i: string, l: char)
    ensures SnocGetOrModify(SnocReverseGet(i, l)) == Right((i, l))
  {
  }

  lemma SnocLawful()
    ensures PrismLaws(Snoc())
  {
  }

  /**
   * `String.traversal().modifyF` with the identity applicative: the list of
   * characters traversed with `f` and joined with the empty separator.
   */
  function TraversalModify(s: string, f: char -> char): (r: string)
    ensures |r| == |s|
    ensures forall k :: 0 <= k < |s| ==> r[k] == f(s[k])
  {
    if s == [] then [] else [f(s[0])] + TraversalModify(s[1..], f)
  }

  /** The traversal laws for the identity applicative: `modify` with the identity changes nothing, and two `modify`s are one. */
  lemma TraversalLaws(s: string, f: char -> char, g: char -> char)
    ensures TraversalModify(s, c => c) == s
    ensures TraversalModify(TraversalModify(s, f), g) == TraversalModify(s, c => g(f(c)))
  {
  }

  /** `mapIndexed` over `s`, whose first character has index `start`. */
  function MapIndexedFrom(s: string, start: int, f: (int, char) -> char): (r: string)
    ensures |r| == |s|
    ensures forall k :: 0 <= k < |s| ==> r[k] == f(start + k, s[k])
  {
    if s == [] then [] else [f(start, s[0])] + MapIndexedFrom(s[1..], start + 1, f)
  }

  /** `String.filterIndex().filter(p).modify`: `f` applied to the characters whose index satisfies `p`. */
  function FilterIndexModify(s: string, p: int -> bool, f: char -> char): (r: string)
    ensures |r| == |s|
    ensures forall k :: 0 <= k < |s| && p(k) ==> r[k] == f(s[k])
    ensures forall k :: 0 <= k < |s| && !p(k) ==> r[k] == s[k]
  {
    MapIndexedFrom(s, 0, (j, c) => if p(j) then f(c) else c)
  }

  /** Filtering every index is the whole traversal; filtering none changes nothing. */
  lemma FilterIndexExtremes(s: string, f: char -> char)
    ensures FilterIndexModify(s, _ => true, f) == TraversalModify(s, f)
    ensures FilterIndexModify(s, _ => false, f) == s
  {
  }

  /** `String.index().index(i).getOrModify`: the character at `i`, or the string back when `i` is out of range. */
  function IndexGetOrModify(s: string, i: int): (r: Either<string, char>)
    ensures r.Right? <==> 0 <= i < |s|
    ensures r.Right? ==> r.right == s[i]
    ensures r.Left? ==> r.left == s
  {
    if 0 <= i < |s| then Right(s[i]) else Left(s)
  }

  /** `String.index().index(i).set`: replaces the character at `i` and no other. */
  function IndexSet(s: string, i: int, c: char): (r: string)
    ensures |r| == |s|
    ensures forall k :: 0 <= k < |s| && k != i ==> r[k] == s[k]
    ensures 0 <= i < |s| ==> r[i] == c
  {
    MapIndexedFrom(s, 0, (j, d) => if j == i then c else d)
  }

  /** The optional laws of `index(i)`, and that an out-of-range index focuses nothing. */
  lemma IndexLaws(s: string, i: int, c: char, d: char)
    ensures IndexGetOrModify(s, i).Right? ==> IndexSet(s, i, IndexGetOrModify(s, i).right) == s
    ensures 0 <= i < |s| ==> IndexGetOrModify(IndexSet(s, i, c), i) == Right(c)
    ensures !(0 <= i < |s|) ==> IndexGetOrModify(s, i) == Left(s) && IndexSet(s, i, c) == s
    ensures IndexSet(IndexSet(s, i, c), i, d) == IndexSet(s, i, d)
  {
  }

  /** Setting through `index(i)` is modifying through `filter { it == i }`. */
  lemma IndexIsFilterOfOne(s: string, i: int, c: char)
    ensures IndexSet(s, i, c) == FilterIndexModify(s, j => j == i, _ => c)
  {
  }
}
