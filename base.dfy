/**
 * The small value types the combinators are written against: Kotlin's
 * nullable `A?` (as Option), Either, Ior (inclusive or), NonEmptyList, and
 * the handful of list primitives (map, flatMap, max) the Kotlin standard
 * library supplies.
 */
module Base {

  /** Kotlin's `A?`: `None` plays the part of `null`. */
  datatype Option<+A> = None | Some(value: A)

  /** The fail-fast sum type: exactly one of `Left` or `Right`. */
  datatype Either<+L, +R> = Left(left: L) | Right(right: R)
  {
    function Fold<C>(fl: L -> C, fr: R -> C): C {
      match this
      case Left(l) => fl(l)
      case Right(r) => fr(r)
    }

    function Map<S>(f: R -> S): Either<L, S> {
      match this
      case Left(l) => Either.Left(l)
      case Right(r) => Either.Right(f(r))
    }

    function Bimap<L2, R2>(fl: L -> L2, fr: R -> R2): Either<L2, R2> {
      match this
      case Left(l) => Either.Left(fl(l))
      case Right(r) => Either.Right(fr(r))
    }
  }

  /**
   * Either's applicative `ap`, `flatMap { a -> ff.map { f -> f(a) } }`:
   * the receiver is inspected first, so of two Lefts the receiver's wins.
   */
  function EitherAp<L, R, S>(x: Either<L, R>, ff: Either<L, R -> S>): Either<L, S> {
    match x
    case Left(l) => Either.Left(l)
    case Right(r) => ff.Map((f: R -> S) => f(r))
  }

  /** Inclusive or: one side, the other side, or both; never neither. */
  datatype Ior<+A, +B> = Left(a: A) | Right(b: B) | Both(leftValue: A, rightValue: B)
  {
    function Fold<C>(fa: A -> C, fb: B -> C, fab: (A, B) -> C): C {
      match this
      case Left(x) => fa(x)
      case Right(y) => fb(y)
      case Both(x, y) => fab(x, y)
    }
  }

  /** A list with at least one element. */
  datatype Nel<+A> = Nel(head: A, tail: seq<A>)
  {
    function All(): seq<A> { [head] + tail }
  }

  /** A caller-supplied Semigroup combine is associative. */
  ghost predicate Associative<E(!new)>(combine: (E, E) -> E) {
    forall x, y, z :: combine(combine(x, y), z) == combine(x, combine(y, z))
  }

  function Max(x: int, y: int): int { if x < y then y else x }

  function Min(x: int, y: int): int { if x < y then x else y }

  /** Kotlin's `identity`. */
  function Id<A>(a: A): A { a }

  /** The element at index `i`, or `None` past the end (a padding position). */
  function At<A>(s: seq<A>, i: nat): (r: Option<A>)
    ensures r.Some? <==> i < |s|
    ensures i < |s| ==> r.value == s[i]
  {
    if i < |s| then Some(s[i]) else None
  }

  /** Kotlin's `map` on a list. */
  function Map<A, B>(xs: seq<A>, f: A -> B): (r: seq<B>)
    ensures |r| == |xs|
    ensures forall i :: 0 <= i < |xs| ==> r[i] == f(xs[i])
  {
    if xs == [] then [] else [f(xs[0])] + Map(xs[1..], f)
  }

  /** Kotlin's `flatMap` on a list. */
  function FlatMap<A, B>(xs: seq<A>, f: A -> seq<B>): seq<B> {
    if xs == [] then [] else f(xs[0]) + FlatMap(xs[1..], f)
  }

  /** Kotlin's `flatten`. */
  function Concat<A>(xss: seq<seq<A>>): seq<A> {
    if xss == [] then [] else xss[0] + Concat(xss[1..])
  }

  /** Flat-mapping after a map is flat-mapping with the composed function. */
  lemma {:induction false} FlatMapMap<A, B, C>(xs: seq<A>, f: A -> B, g: B -> seq<C>, h: A -> seq<C>)
    requires forall x :: h(x) == g(f(x))
    ensures FlatMap(Map(xs, f), g) == FlatMap(xs, h)
  {
    if xs != [] {
      assert Map(xs, f)[1..] == Map(xs[1..], f);
      FlatMapMap(xs[1..], f, g, h);
    }
  }

  lemma {:induction false} FlatMapAppend<A, B>(xs: seq<A>, ys: seq<A>, f: A -> seq<B>)
    ensures FlatMap(xs + ys, f) == FlatMap(xs, f) + FlatMap(ys, f)
  {
    if xs != [] {
      assert (xs + ys)[1..] == xs[1..] + ys;
      FlatMapAppend(xs[1..], ys, f);
    } else {
      assert xs + ys == ys;
    }
  }
}
