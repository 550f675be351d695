/**
 * `Validated<E, A>`: a value that is either `Valid(a)` or `Invalid(e)`.
 * Unlike Either, its applicative `Ap` does not stop at the first failure:
 * when both sides are Invalid it merges the two errors with a caller-supplied
 * Semigroup combine, here a plain function `(E, E) -> E`.
 *
 * Every operation is a `Fold` over the two cases, as in the Kotlin class;
 * Kotlin's lazy arguments (`() -> X`) are kept as nullary functions.
 */
module Validation {
  import opened Base

  datatype Validated<+E, +A> = Valid(a: A) | Invalid(e: E)

  // ---------------------------------------------------------------------
  // Elimination and case tests

  /** The one elimination form: `fa` on Valid, `fe` on Invalid. */
  function Fold<E, A, B>(v: Validated<E, A>, fe: E -> B, fa: A -> B): (r: B)
    ensures v.Valid? ==> r == fa(v.a)
    ensures v.Invalid? ==> r == fe(v.e)
  {
    match v
    case Valid(a) => fa(a)
    case Invalid(e) => fe(e)
  }

  function IsValid<E, A>(v: Validated<E, A>): (r: bool)
    ensures r <==> v.Valid?
  {
    Fold(v, _ => false, _ => true)
  }

  function IsInvalid<E, A>(v: Validated<E, A>): (r: bool)
    ensures r <==> v.Invalid?
  {
    Fold(v, _ => true, _ => false)
  }

  /** Exactly one of the two case tests holds. */
  lemma ExactlyOneCase<E, A>(v: Validated<E, A>)
    ensures IsValid(v) != IsInvalid(v)
  {
  }

  /** Valid and matching the predicate. */
  function Exist<E, A>(v: Validated<E, A>, p: A -> bool): (r: bool)
    ensures r <==> v.Valid? && p(v.a)
  {
    Fold(v, _ => false, p)
  }

  // ---------------------------------------------------------------------
  // Conversions

  function ToEither<E, A>(v: Validated<E, A>): (r: Either<E, A>)
    ensures r.Left? <==> v.Invalid?
    ensures r.Left? ==> r.left == v.e
    ensures r.Right? ==> r.right == v.a
  {
    Fold(v, e => Either.Left(e), a => Either.Right(a))
  }

  function FromEither<E, A>(x: Either<E, A>): (r: Validated<E, A>)
    ensures r.Invalid? <==> x.Left?
    ensures r.Invalid? ==> r.e == x.left
    ensures r.Valid? ==> r.a == x.right
  {
    x.Fold(e => Invalid(e), a => Valid(a))
  }

  /** `toEither` and `fromEither` are mutually inverse. */
  lemma EitherRoundTrip<E, A>(v: Validated<E, A>, x: Either<E, A>)
    ensures FromEither(ToEither(v)) == v
    ensures ToEither(FromEither(x)) == x
  {
  }

  function FromOption<E, A>(o: Option<A>, ifNone: () -> E): (r: Validated<E, A>)
    ensures o.Some? ==> r == Valid(o.value)
    ensures o.None? ==> r == Invalid(ifNone())
  {
    match o
    case None => Invalid(ifNone())
    case Some(a) => Valid(a)
  }

  function ToOption<E, A>(v: Validated<E, A>): (r: Option<A>)
    ensures r.Some? <==> v.Valid?
    ensures r.Some? ==> r.value == v.a
  {
    Fold(v, _ => None, a => Some(a))
  }

  /** `FromOption` undoes `ToOption` on Valid values; Invalid ones are rebuilt from `ifNone`. */
  lemma OptionRoundTrip<E, A>(v: Validated<E, A>, ifNone: () -> E)
    ensures v.Valid? ==> FromOption(ToOption(v), ifNone) == v
    ensures v.Invalid? ==> FromOption(ToOption(v), ifNone) == Invalid(ifNone())
  {
  }

  function ToList<E, A>(v: Validated<E, A>): (r: seq<A>)
    ensures |r| <= 1
    ensures |r| == 1 <==> v.Valid?
    ensures v.Valid? ==> r == [v.a]
  {
    Fold(v, _ => [], a => [a])
  }

  function ToIor<E, A>(v: Validated<E, A>): (r: Ior<E, A>)
    ensures !r.Both?
    ensures r.Left? <==> v.Invalid?
    ensures r.Left? ==> r.a == v.e
    ensures r.Right? ==> r.b == v.a
  {
    Fold(v, e => Ior.Left(e), a => Ior.Right(a))
  }

  /** `invalidNel`: an error lifted into a one-element NonEmptyList. */
  function InvalidNel<E, A>(e: E): (r: Validated<Nel<E>, A>)
    ensures r.Invalid? && r.e.All() == [e]
  {
    Invalid(Nel(e, []))
  }

  function ValidNel<E, A>(a: A): (r: Validated<Nel<E>, A>)
    ensures r.Valid? && r.a == a
  {
    Valid(a)
  }

  /** Lifts the error (if any) into a NonEmptyList; a Valid value keeps its payload. */
  function ToValidatedNel<E, A>(v: Validated<E, A>): (r: Validated<Nel<E>, A>)
    ensures r.Valid? <==> v.Valid?
    ensures v.Valid? ==> r.a == v.a
    ensures v.Invalid? ==> r.e == Nel(v.e, [])
  {
    Fold(v, e => InvalidNel(e), a => Valid(a))
  }

  /** Converts to Either, applies `f`, converts back. */
  function WithEither<E, A, EE, B>(v: Validated<E, A>, f: Either<E, A> -> Either<EE, B>): (r: Validated<EE, B>)
    ensures ToEither(r) == f(ToEither(v))
  {
    FromEither(f(ToEither(v)))
  }

  lemma WithEitherIdentity<E, A>(v: Validated<E, A>)
    ensures WithEither(v, x => x) == v
  {
  }

  // ---------------------------------------------------------------------
  // Mapping

  /** Applies one of the two functions; the case never changes. */
  function Bimap<E, A, EE, AA>(v: Validated<E, A>, fe: E -> EE, fa: A -> AA): (r: Validated<EE, AA>)
    ensures r.Valid? <==> v.Valid?
    ensures v.Valid? ==> r.a == fa(v.a)
    ensures v.Invalid? ==> r.e == fe(v.e)
  {
    Fold(v, e => Invalid(fe(e)), a => Valid(fa(a)))
  }

  /** Maps the Valid payload; an Invalid value is returned unchanged. */
  function Map<E, A, B>(v: Validated<E, A>, f: A -> B): (r: Validated<E, B>)
    ensures v.Invalid? ==> r == Invalid(v.e)
    ensures v.Valid? ==> r == Valid(f(v.a))
  {
    Bimap(v, e => e, f)
  }

  /** Maps the Invalid payload; a Valid value is returned unchanged. */
  function LeftMap<E, A, EE>(v: Validated<E, A>, f: E -> EE): (r: Validated<EE, A>)
    ensures v.Valid? ==> r == Valid(v.a)
    ensures v.Invalid? ==> r == Invalid(f(v.e))
  {
    Bimap(v, f, a => a)
  }

  /** Functor laws for `Map`, and `Bimap` as the two single-sided maps in sequence. */
  lemma MapLaws<E, A, B, C, EE>(v: Validated<E, A>, f: A -> B, g: B -> C, fe: E -> EE)
    ensures Map(v, a => a) == v
    ensures Map(Map(v, f), g) == Map(v, a => g(f(a)))
    ensures Bimap(v, fe, f) == Map(LeftMap(v, fe), f)
  {
  }

  function FoldLeft<E, A, B>(v: Validated<E, A>, b: B, f: (B, A) -> B): (r: B)
    ensures v.Invalid? ==> r == b
    ensures v.Valid? ==> r == f(b, v.a)
  {
    Fold(v, _ => b, a => f(b, a))
  }

  /** Exchanges the two cases together with their payloads. */
  function Swap<E, A>(v: Validated<E, A>): (r: Validated<A, E>)
    ensures r.Valid? <==> v.Invalid?
    ensures r.Valid? ==> r.a == v.e
    ensures r.Invalid? ==> r.e == v.a
  {
    Fold(v, e => Valid(e), a => Invalid(a))
  }

  lemma SwapInvolution<E, A>(v: Validated<E, A>)
    ensures Swap(Swap(v)) == v
  {
  }

  // ---------------------------------------------------------------------
  // Extracting a value

  function GetOrElse<E, B>(v: Validated<E, B>, default: () -> B): (r: B)
    ensures v.Valid? ==> r == v.a
    ensures v.Invalid? ==> r == default()
  {
    Fold(v, _ => default(), b => b)
  }

  /** Kotlin's `orNull`: the Valid value, or null. */
  function OrNull<E, B>(v: Validated<E, B>): (r: Option<B>)
    ensures r.Some? <==> v.Valid?
    ensures r.Some? ==> r.value == v.a
  {
    GetOrElse(Map(v, b => Some(b)), () => None)
  }

  function ValueOr<E, B>(v: Validated<E, B>, f: E -> B): (r: B)
    ensures v.Valid? ==> r == v.a
    ensures v.Invalid? ==> r == f(v.e)
  {
    Fold(v, f, b => b)
  }

  // ---------------------------------------------------------------------
  // Alternatives

  /**
   * The first Valid of `v` and `that()`; if both are Invalid, their errors
   * are combined, `v`'s on the left.
   */
  function FindValid<E, A>(combine: (E, E) -> E, v: Validated<E, A>, that: () -> Validated<E, A>): (r: Validated<E, A>)
    ensures v.Valid? ==> r == v
    ensures v.Invalid? && that().Valid? ==> r == that()
    ensures v.Invalid? && that().Invalid? ==> r == Invalid(combine(v.e, that().e))
  {
    Fold(v, e => Fold(that(), ee => Invalid(combine(e, ee)), a => Valid(a)), a => Valid(a))
  }

  /** A Valid receiver never looks at its alternative. */
  lemma FindValidIgnoresAlternative<E, A>(combine: (E, E) -> E, a: A, t1: () -> Validated<E, A>, t2: () -> Validated<E, A>)
    ensures FindValid(combine, Valid(a), t1) == FindValid(combine, Valid(a), t2)
  {
  }

  /** Falls back to `default()` on Invalid, dropping the receiver's error. */
  function OrElse<E, A>(v: Validated<E, A>, default: () -> Validated<E, A>): (r: Validated<E, A>)
    ensures v.Valid? ==> r == v
    ensures v.Invalid? ==> r == default()
  {
    Fold(v, _ => default(), a => Valid(a))
  }

  function HandleLeftWith<E, A>(v: Validated<E, A>, f: E -> Validated<E, A>): (r: Validated<E, A>)
    ensures v.Valid? ==> r == v
    ensures v.Invalid? ==> r == f(v.e)
  {
    Fold(v, f, a => Valid(a))
  }

  /** `orElse` is `handleLeftWith` with a handler that ignores the error. */
  lemma OrElseIsHandleLeftWith<E, A>(v: Validated<E, A>, default: () -> Validated<E, A>)
    ensures OrElse(v, default) == HandleLeftWith(v, _ => default())
  {
  }

  // ---------------------------------------------------------------------
  // Applicative composition

  /**
   * Applies a Valid function to a Valid value; an Invalid operand alone is
   * propagated; two Invalids give `combine(functionError, valueError)`.
   */
  function Ap<E, A, B>(combine: (E, E) -> E, v: Validated<E, A>, f: Validated<E, A -> B>): (r: Validated<E, B>)
    ensures v.Valid? && f.Valid? ==> r == Valid(f.a(v.a))
    ensures v.Invalid? && f.Valid? ==> r == Invalid(v.e)
    ensures v.Valid? && f.Invalid? ==> r == Invalid(f.e)
    ensures v.Invalid? && f.Invalid? ==> r == Invalid(combine(f.e, v.e))
  {
    Fold(v,
      e => Fold(f, fe => Invalid(combine(fe, e)), _ => Invalid(e)),
      a => Fold(f, fe => Invalid(fe), (g: A -> B) => Valid(g(a))))
  }

  /** With a Valid function, `Ap` is `Map`; with a Valid value, it applies the function to it. */
  lemma ApValidSides<E, A, B>(combine: (E, E) -> E, v: Validated<E, A>, g: A -> B, a: A, f: Validated<E, A -> B>)
    ensures Ap(combine, v, Valid(g)) == Map(v, g)
    ensures Ap(combine, Valid(a), f) == Map(f, (h: A -> B) => h(a))
  {
  }

  /**
   * The applicative composition law: applying `u` after `w` is the same as
   * applying their composite; the accumulated error agrees only because the
   * combine is associative.
   */
  lemma ApComposition<E(!new), A, B, C>(combine: (E, E) -> E, w: Validated<E, A>,
                                      v: Validated<E, A -> B>, u: Validated<E, B -> C>)
    requires Associative(combine)
    ensures Ap(combine, Ap(combine, w, v), u)
         == Ap(combine, w, Ap(combine, v, Map(u, (g: B -> C) => (h: A -> B) => (x: A) => g(h(x)))))
  {
    if w.Invalid? && v.Invalid? && u.Invalid? {
      assert combine(combine(u.e, v.e), w.e) == combine(u.e, combine(v.e, w.e));
    }
  }

  /** The Applicative `traverse` specialised to the list applicative. */
  function TraverseList<E, A, B>(v: Validated<E, A>, f: A -> seq<B>): (r: seq<Validated<E, B>>)
    ensures v.Invalid? ==> r == [Invalid(v.e)]
    ensures v.Valid? ==> |r| == |f(v.a)| && forall i :: 0 <= i < |r| ==> r[i] == Valid(f(v.a)[i])
  {
    Fold(v, e => [Invalid(e)], a => Base.Map(f(a), (b: B) => Valid(b)))
  }

  /** `sequence` is `traverse` with the identity. */
  function SequenceList<E, A>(v: Validated<E, seq<A>>): (r: seq<Validated<E, A>>)
    ensures v.Invalid? ==> r == [Invalid(v.e)]
    ensures v.Valid? ==> |r| == |v.a| && forall i :: 0 <= i < |r| ==> r[i] == Valid(v.a[i])
  {
    TraverseList(v, (xs: seq<A>) => xs)
  }

  // ---------------------------------------------------------------------
  // Semigroup-style combination

  /** Two Valids combine their values, two Invalids their errors; otherwise Invalid wins. */
  function Combine<E, A>(se: (E, E) -> E, sa: (A, A) -> A, v: Validated<E, A>, y: Validated<E, A>): (r: Validated<E, A>)
    ensures v.Valid? && y.Valid? ==> r == Valid(sa(v.a, y.a))
    ensures v.Invalid? && y.Invalid? ==> r == Invalid(se(v.e, y.e))
    ensures v.Invalid? && y.Valid? ==> r == v
    ensures v.Valid? && y.Invalid? ==> r == y
  {
    if v.Valid? && y.Valid? then Valid(sa(v.a, y.a))
    else if v.Invalid? && y.Invalid? then Invalid(se(v.e, y.e))
    else if v.Invalid? then v
    else y
  }

  /** `Combine` inherits associativity from its two combines. */
  lemma CombineAssociative<E(!new), A(!new)>(se: (E, E) -> E, sa: (A, A) -> A,
                                           x: Validated<E, A>, y: Validated<E, A>, z: Validated<E, A>)
    requires Associative(se) && Associative(sa)
    ensures Combine(se, sa, Combine(se, sa, x, y), z) == Combine(se, sa, x, Combine(se, sa, y, z))
  {
    if x.Valid? && y.Valid? && z.Valid? {
      assert sa(sa(x.a, y.a), z.a) == sa(x.a, sa(y.a, z.a));
    } else if x.Invalid? && y.Invalid? && z.Invalid? {
      assert se(se(x.e, y.e), z.e) == se(x.e, se(y.e, z.e));
    } else if x.Invalid? && y.Invalid? {
      assert Combine(se, sa, y, z) == y;
    } else if y.Invalid? && z.Invalid? {
      assert Combine(se, sa, x, y) == y;
    } else if x.Invalid? && z.Invalid? {
      assert Combine(se, sa, x, y) == x;
    }
  }

  /** The first Valid operand wins; two Invalids combine their errors. */
  function CombineK<E, A>(se: (E, E) -> E, v: Validated<E, A>, y: Validated<E, A>): (r: Validated<E, A>)
    ensures v.Valid? ==> r == v
    ensures v.Invalid? && y.Valid? ==> r == y
    ensures v.Invalid? && y.Invalid? ==> r == Invalid(se(v.e, y.e))
  {
    match v
    case Valid(_) => v
    case Invalid(xe) =>
      match y
      case Invalid(ye) => Invalid(se(xe, ye))
      case Valid(_) => y
  }

  /** `findValid` with an alternative that yields `y` is `combineK` with `y`. */
  lemma FindValidIsCombineK<E, A>(se: (E, E) -> E, v: Validated<E, A>, y: Validated<E, A>)
    ensures FindValid(se, v, () => y) == CombineK(se, v, y)
  {
  }

  lemma CombineKAssociative<E(!new), A>(se: (E, E) -> E, x: Validated<E, A>, y: Validated<E, A>, z: Validated<E, A>)
    requires Associative(se)
    ensures CombineK(se, CombineK(se, x, y), z) == CombineK(se, x, CombineK(se, y, z))
  {
    if x.Invalid? && y.Invalid? && z.Invalid? {
      assert se(se(x.e, y.e), z.e) == se(x.e, se(y.e, z.e));
    }
  }

  // ---------------------------------------------------------------------
  // The cases exercised by the unit tests, on integers with `+`

  lemma ApExamples()
    ensures Ap<int, int, int>((x: int, y: int) => x + y, Valid(10), Valid((a: int) => a + 5)) == Valid(15)
    ensures Ap<int, int, int>((x: int, y: int) => x + y, Invalid(10), Valid((a: int) => a + 5)) == Invalid(10)
    ensures Ap<int, int, int>((x: int, y: int) => x + y, Valid(10), Invalid(5)) == Invalid(5)
    ensures Ap<int, int, int>((x: int, y: int) => x + y, Invalid(10), Invalid(5)) == Invalid(15)
  {
  }

  lemma FindValidExamples()
    ensures FindValid<int, int>((x: int, y: int) => x + y, Invalid(10), () => Valid(5)) == Valid(5)
    ensures FindValid<int, int>((x: int, y: int) => x + y, Invalid(10), () => Invalid(5)) == Invalid(15)
  {
  }
}
