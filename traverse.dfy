/**
 * `traverse` and `sequence` over lists, for the fail-fast Either and the
 * error-accumulating Validated. Each is a right fold seeded with an empty
 * success, whose step is `f(a).ap(acc.map { bs -> { b -> [b] + bs } })`;
 * the functions below are that fold written as recursion on the list.
 */
module Traversal {
  import opened Base
  import Validation
  import Lists

  // ---------------------------------------------------------------------
  // Either: the first Left wins

  /** No element before index `k` fails under `f`, and element `k` fails with `l`. */
  ghost predicate FirstLeftAt<E, A, B>(xs: seq<A>, f: A -> Either<E, B>, k: int, l: E) {
    0 <= k < |xs| && f(xs[k]) == Either.Left(l) && forall j :: 0 <= j < k ==> f(xs[j]).Right?
  }

  /**
   * `traverseEither`: Right exactly when every `f(a)` is Right, holding
   * their values in input order; otherwise the Left of the first failing
   * element.
   */
  function TraverseEither<E, A, B>(xs: seq<A>, f: A -> Either<E, B>): (r: Either<E, seq<B>>)
    ensures r.Right? <==> forall i :: 0 <= i < |xs| ==> f(xs[i]).Right?
    ensures r.Right? ==> |r.right| == |xs| && forall i :: 0 <= i < |xs| ==> r.right[i] == f(xs[i]).right
    ensures r.Left? ==> exists k :: FirstLeftAt(xs, f, k, r.left)
  {
    if xs == [] then Either.Right([])
    else
      var rest := TraverseEither(xs[1..], f);
      var r := EitherAp(f(xs[0]), rest.Map((bs: seq<B>) => (b: B) => [b] + bs));
      assert r.Left? && f(xs[0]).Right? ==> exists k :: FirstLeftAt(xs[1..], f, k, r.left);
      assert r.Left? && f(xs[0]).Right? ==> exists k :: FirstLeftAt(xs, f, k, r.left) by {
        if r.Left? && f(xs[0]).Right? {
          var k :| FirstLeftAt(xs[1..], f, k, r.left);
          assert FirstLeftAt(xs, f, k + 1, r.left);
        }
      }
      assert r.Left? && f(xs[0]).Left? ==> FirstLeftAt(xs, f, 0, r.left);
      r
  }

  /** `flatTraverseEither`: like `traverseEither`, but the inner lists are concatenated. */
  function FlatTraverseEither<E, A, B>(xs: seq<A>, f: A -> Either<E, seq<B>>): (r: Either<E, seq<B>>)
    ensures r == TraverseEither(xs, f).Map((bss: seq<seq<B>>) => Concat(bss))
  {
    if xs == [] then Either.Right([])
    else
      var rest := FlatTraverseEither(xs[1..], f);
      var r := EitherAp(f(xs[0]), rest.Map((bs: seq<B>) => (b: seq<B>) => b + bs));
      var t := TraverseEither(xs[1..], f);
      assert t.Right? && f(xs[0]).Right? ==> ([f(xs[0]).right] + t.right)[1..] == t.right;
      r
  }

  /** `traverseEither_`: only the outcome is kept, the values are discarded. */
  function TraverseEitherDiscard<E, A, X>(xs: seq<A>, f: A -> Either<E, X>): (r: Either<E, ()>)
    ensures r == TraverseEither(xs, f).Map((_: seq<X>) => ())
  {
    if xs == [] then Either.Right(())
    else EitherAp(f(xs[0]), TraverseEitherDiscard(xs[1..], f).Map((_: ()) => (_: X) => ()))
  }

  function SequenceEither<E, A>(xs: seq<Either<E, A>>): (r: Either<E, seq<A>>)
    ensures r.Right? <==> forall i :: 0 <= i < |xs| ==> xs[i].Right?
    ensures r.Right? ==> |r.right| == |xs| && forall i :: 0 <= i < |xs| ==> r.right[i] == xs[i].right
    ensures r.Left? ==> exists k :: 0 <= k < |xs| && xs[k] == Either.Left(r.left) &&
                                    forall j :: 0 <= j < k ==> xs[j].Right?
  {
    var r := TraverseEither(xs, Id);
    assert r.Left? ==> exists k :: 0 <= k < |xs| && xs[k] == Either.Left(r.left) &&
                                   forall j :: 0 <= j < k ==> xs[j].Right? by {
      if r.Left? {
        var k :| FirstLeftAt(xs, Id, k, r.left);
        assert xs[k] == Either.Left(r.left);
      }
    }
    r
  }

  function FlatSequenceEither<E, A>(xs: seq<Either<E, seq<A>>>): (r: Either<E, seq<A>>)
    ensures r == SequenceEither(xs).Map((bss: seq<seq<A>>) => Concat(bss))
  {
    FlatTraverseEither(xs, Id)
  }

  function SequenceEitherDiscard<E, X>(xs: seq<Either<E, X>>): (r: Either<E, ()>)
    ensures r == SequenceEither(xs).Map((_: seq<X>) => ())
  {
    TraverseEitherDiscard(xs, Id)
  }

  /** Traversing with `f` is sequencing the list mapped by `f`. */
  lemma {:induction false} TraverseEitherIsSequenceOfMap<E, A, B>(xs: seq<A>, f: A -> Either<E, B>)
    ensures TraverseEither(xs, f) == SequenceEither(Map(xs, f))
  {
    if xs != [] {
      TraverseEitherIsSequenceOfMap(xs[1..], f);
      assert Map(xs, f)[1..] == Map(xs[1..], f);
    }
  }

  /** Sequencing a list of successes succeeds with the list itself. */
  lemma SequenceEitherOfRights<E, A>(xs: seq<A>)
    ensures SequenceEither(Map(xs, (a: A) => Either<E, A>.Right(a))) == Either.Right(xs)
  {
    var r := SequenceEither(Map(xs, (a: A) => Either<E, A>.Right(a)));
    assert r.right == xs;
  }

  // ---------------------------------------------------------------------
  // Validated: every error is accumulated

  /**
   * The errors of a traversal combined as the fold combines them: the first
   * error ends up on the right, each later one is combined onto the left.
   */
  function Accumulated<E>(se: (E, E) -> E, es: seq<E>): E
    requires es != []
  {
    if |es| == 1 then es[0] else se(Accumulated(se, es[1..]), es[0])
  }

  /** The errors of the failing `f(a)`, in input order. */
  function Errors<E, A, B>(xs: seq<A>, f: A -> Validation.Validated<E, B>): seq<E> {
    if xs == [] then [] else (if f(xs[0]).Invalid? then [f(xs[0]).e] else []) + Errors(xs[1..], f)
  }

  /** These are the errors `separateValidated` puts on its left. */
  lemma {:induction false} ErrorsAreSeparated<E, A, B>(xs: seq<A>, f: A -> Validation.Validated<E, B>)
    ensures Errors(xs, f) == Lists.SeparateValidated(Map(xs, f)).0
  {
    var invalid := (x: Validation.Validated<E, B>) => Validation.Fold(x, a => [a], _ => []);
    if xs != [] {
      ErrorsAreSeparated(xs[1..], f);
      assert Map(xs, f)[1..] == Map(xs[1..], f);
      assert Lists.SeparateValidated(Map(xs, f)).0 == FlatMap(Map(xs, f), invalid);
    }
  }

  /**
   * `traverseValidated`: Valid exactly when every `f(a)` is Valid, holding
   * their values in input order; otherwise Invalid with all the errors,
   * in input order, accumulated by `se`, later errors on the left.
   */
  function TraverseValidated<E, A, B>(se: (E, E) -> E, xs: seq<A>, f: A -> Validation.Validated<E, B>): (r: Validation.Validated<E, seq<B>>)
    ensures r.Valid? <==> forall i :: 0 <= i < |xs| ==> f(xs[i]).Valid?
    ensures r.Valid? ==> |r.a| == |xs| && forall i :: 0 <= i < |xs| ==> r.a[i] == f(xs[i]).a
    ensures r.Invalid? <==> Errors(xs, f) != []
    ensures r.Invalid? ==> r.e == Accumulated(se, Errors(xs, f))
  {
    if xs == [] then Validation.Valid([])
    else
      var rest := TraverseValidated(se, xs[1..], f);
      var es := Errors(xs[1..], f);
      assert f(xs[0]).Valid? ==> Errors(xs, f) == es by {
        assert [] + es == es;
      }
      assert f(xs[0]).Invalid? && es != [] ==> Accumulated(se, Errors(xs, f)) == se(Accumulated(se, es), f(xs[0]).e) by {
        assert f(xs[0]).Invalid? ==> ([f(xs[0]).e] + es)[1..] == es;
      }
      Validation.Ap(se, f(xs[0]), Validation.Map(rest, (bs: seq<B>) => (b: B) => [b] + bs))
  }

  /** `flatTraverseValidated`: like `traverseValidated`, but the inner lists are concatenated. */
  function FlatTraverseValidated<E, A, B>(se: (E, E) -> E, xs: seq<A>, f: A -> Validation.Validated<E, seq<B>>): (r: Validation.Validated<E, seq<B>>)
    ensures r == Validation.Map(TraverseValidated(se, xs, f), (bss: seq<seq<B>>) => Concat(bss))
  {
    if xs == [] then Validation.Valid([])
    else
      var rest := FlatTraverseValidated(se, xs[1..], f);
      var t := TraverseValidated(se, xs[1..], f);
      assert t.Valid? && f(xs[0]).Valid? ==> ([f(xs[0]).a] + t.a)[1..] == t.a;
      Validation.Ap(se, f(xs[0]), Validation.Map(rest, (bs: seq<B>) => (b: seq<B>) => b + bs))
  }

  /** `traverseValidated_`: the errors are accumulated as above, the values discarded. */
  function TraverseValidatedDiscard<E, A, X>(se: (E, E) -> E, xs: seq<A>, f: A -> Validation.Validated<E, X>): (r: Validation.Validated<E, ()>)
    ensures r == Validation.Map(TraverseValidated(se, xs, f), (_: seq<X>) => ())
  {
    if xs == [] then Validation.Valid(())
    else Validation.Ap(se, f(xs[0]), Validation.Map(TraverseValidatedDiscard(se, xs[1..], f), (_: ()) => (_: X) => ()))
  }

  function SequenceValidated<E, A>(se: (E, E) -> E, xs: seq<Validation.Validated<E, A>>): (r: Validation.Validated<E, seq<A>>)
    ensures r.Valid? <==> forall i :: 0 <= i < |xs| ==> xs[i].Valid?
    ensures r.Valid? ==> |r.a| == |xs| && forall i :: 0 <= i < |xs| ==> r.a[i] == xs[i].a
    ensures r.Invalid? <==> Lists.SeparateValidated(xs).0 != []
    ensures r.Invalid? ==> r.e == Accumulated(se, Lists.SeparateValidated(xs).0)
  {
    assert Map(xs, Id) == xs;
    ErrorsAreSeparated(xs, Id);
    TraverseValidated(se, xs, Id)
  }

  function FlatSequenceValidated<E, A>(se: (E, E) -> E, xs: seq<Validation.Validated<E, seq<A>>>): (r: Validation.Validated<E, seq<A>>)
    ensures r == Validation.Map(SequenceValidated(se, xs), (bss: seq<seq<A>>) => Concat(bss))
  {
    FlatTraverseValidated(se, xs, Id)
  }

  function SequenceValidatedDiscard<E, X>(se: (E, E) -> E, xs: seq<Validation.Validated<E, X>>): (r: Validation.Validated<E, ()>)
    ensures r == Validation.Map(SequenceValidated(se, xs), (_: seq<X>) => ())
  {
    TraverseValidatedDiscard(se, xs, Id)
  }

  /**
   * Reference description through `separateValidated`: no errors gives all
   * the values, otherwise the accumulated errors.
   */
  lemma TraverseValidatedBySeparation<E, A, B>(se: (E, E) -> E, xs: seq<A>, f: A -> Validation.Validated<E, B>)
    ensures var (es, bs) := Lists.SeparateValidated(Map(xs, f));
      TraverseValidated(se, xs, f) == if es == [] then Validation.Valid(bs) else Validation.Invalid(Accumulated(se, es))
  {
    ErrorsAreSeparated(xs, f);
    var t := TraverseValidated(se, xs, f);
    if t.Valid? {
      ValuesWhenAllValid(xs, f);
    }
  }

  /** When nothing fails, the separated values are the values of every `f(a)`. */
  lemma {:induction false} ValuesWhenAllValid<E, A, B>(xs: seq<A>, f: A -> Validation.Validated<E, B>)
    requires forall i :: 0 <= i < |xs| ==> f(xs[i]).Valid?
    ensures |Lists.SeparateValidated(Map(xs, f)).1| == |xs|
    ensures forall i :: 0 <= i < |xs| ==> Lists.SeparateValidated(Map(xs, f)).1[i] == f(xs[i]).a
  {
    if xs != [] {
      assert Map(xs, f)[1..] == Map(xs[1..], f);
      ValuesWhenAllValid(xs[1..], f);
    }
  }

  /** Traversing with `f` is sequencing the list mapped by `f`. */
  lemma {:induction false} TraverseValidatedIsSequenceOfMap<E, A, B>(se: (E, E) -> E, xs: seq<A>, f: A -> Validation.Validated<E, B>)
    ensures TraverseValidated(se, xs, f) == SequenceValidated(se, Map(xs, f))
  {
    if xs != [] {
      TraverseValidatedIsSequenceOfMap(se, xs[1..], f);
      assert Map(xs, f)[1..] == Map(xs[1..], f);
    }
  }

  /** Traverse identity: sequencing a list of Valids is Valid of the list. */
  lemma SequenceValidatedOfValids<E, A>(se: (E, E) -> E, xs: seq<A>)
    ensures SequenceValidated(se, Map(xs, (a: A) => Validation.Validated<E, A>.Valid(a))) == Validation.Valid(xs)
  {
    var r := SequenceValidated(se, Map(xs, (a: A) => Validation.Validated<E, A>.Valid(a)));
    assert r.a == xs;
  }

  /** Two failures: the later error is combined on the left. */
  lemma AccumulationOrderExample(se: (int, int) -> int, e1: int, e2: int)
    ensures SequenceValidated<int, int>(se, [Validation.Invalid(e1), Validation.Invalid(e2)]) == Validation.Invalid(se(e2, e1))
  {
    var xs: seq<Validation.Validated<int, int>> := [Validation.Invalid(e1), Validation.Invalid(e2)];
    assert xs[1..][1..] == [];
    assert TraverseValidated(se, xs[1..], Id) == Validation.Invalid(e2);
  }
}
