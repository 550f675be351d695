/**
 * Polymorphic setters: a `PSetter<S, T, A, B>` can turn a function on the
 * focus, `A -> B`, into a function on the whole, `S -> T`, and can set the
 * focus to a value. The Kotlin abstract class has exactly those two
 * abstract members, so the datatype holds both as function values; the
 * setters the library builds all come from `Invoke`, which derives `set`
 * from `modify`.
 */
module Optics {
  import opened Base

  datatype PSetter<!S, T, !A, !B> = PSetter(modifyWith: (A -> B) -> (S -> T), setTo: B -> (S -> T))

  /** The constant function, Kotlin's `{ b }`. */
  function Const<A, B>(b: B): A -> B {
    _ => b
  }

  /** `f` then `g`. */
  function AndThen<A, B, C>(f: A -> B, g: B -> C): A -> C {
    x => g(f(x))
  }

  /** `PSetter(modify)`: a setter from its `modify`, whose `set(b)` modifies with the constant `b`. */
  function Invoke<S, T, A, B(!new)>(modifyWith: (A -> B) -> (S -> T)): (r: PSetter<S, T, A, B>)
    ensures r.modifyWith == modifyWith
    ensures forall b :: r.setTo(b) == modifyWith(Const(b))
  {
    PSetter(modifyWith, b => modifyWith(Const(b)))
  }

  // ---------------------------------------------------------------------
  // The setter laws (for a monomorphic `Setter<S, A>`). Dafny does not let a
  // predicate quantify over functions, so the two laws about functions are
  // stated for given `f` and `g`, and the lemmas quantify over those.

  /** `set(b)` does what modifying with the constant `b` does. */
  ghost predicate SetLaw<S(!new), T, A, B(!new)>(p: PSetter<S, T, A, B>) {
    forall b, s :: p.setTo(b)(s) == p.modifyWith(Const(b))(s)
  }

  /** Modifying with the identity changes nothing. */
  ghost predicate IdentityLaw<S(!new), A>(p: PSetter<S, S, A, A>) {
    forall s :: p.modifyWith(Id)(s) == s
  }

  /** Functions `f` and `g` that agree on every argument modify every whole alike. */
  ghost predicate CongruentAt<S(!new), T, A(!new), B>(p: PSetter<S, T, A, B>, f: A -> B, g: A -> B) {
    (forall a :: f(a) == g(a)) ==> forall s :: p.modifyWith(f)(s) == p.modifyWith(g)(s)
  }

  /** Modifying with `f` and then with `g` is modifying once with `f` then `g`. */
  ghost predicate ComposesAt<S(!new), A>(p: PSetter<S, S, A, A>, f: A -> A, g: A -> A) {
    forall s :: p.modifyWith(g)(p.modifyWith(f)(s)) == p.modifyWith(AndThen(f, g))(s)
  }

  // ---------------------------------------------------------------------
  // codiagonal

  /** The setter focused on whichever side of an `Either<A, A>` is present. */
  function Codiagonal<A(!new)>(): (r: PSetter<Either<A, A>, Either<A, A>, A, A>)
    ensures forall b, a :: r.setTo(b)(Either.Left(a)) == Either.Left(b)
    ensures forall b, a :: r.setTo(b)(Either.Right(a)) == Either.Right(b)
  {
    Invoke((f: A -> A) => (aa: Either<A, A>) => aa.Bimap(f, f))
  }

  /** `codiagonal().modify(f)` applies `f` to the side that is present and keeps the side. */
  lemma CodiagonalModify<A(!new)>(f: A -> A, a: A)
    ensures Codiagonal().modifyWith(f)(Either.Left(a)) == Either.Left(f(a))
    ensures Codiagonal().modifyWith(f)(Either.Right(a)) == Either.Right(f(a))
  {
  }

  lemma CodiagonalLawful<A(!new)>()
    ensures SetLaw(Codiagonal<A>())
    ensures IdentityLaw(Codiagonal<A>())
    ensures forall f, g :: CongruentAt(Codiagonal<A>(), f, g)
    ensures forall f, g :: ComposesAt(Codiagonal<A>(), f, g)
  {
    var p := Codiagonal<A>();
    forall s ensures p.modifyWith(Id)(s) == s {
      match s {
        case Left(a) =>
        case Right(a) =>
      }
    }
    forall f: A -> A, g: A -> A ensures CongruentAt(p, f, g) && ComposesAt(p, f, g) {
      forall s | forall a :: f(a) == g(a) ensures p.modifyWith(f)(s) == p.modifyWith(g)(s) {
        match s {
          case Left(a) => assert f(a) == g(a);
          case Right(a) => assert f(a) == g(a);
        }
      }
      forall s ensures p.modifyWith(g)(p.modifyWith(f)(s)) == p.modifyWith(AndThen(f, g))(s) {
        match s {
          case Left(a) =>
          case Right(a) =>
        }
      }
    }
  }

  // ---------------------------------------------------------------------
  // choice

  /** Two setters with the same focus, joined over `Either<S, U>`. */
  function Choice<S(!new), T, U(!new), V, A, B(!new)>(p: PSetter<S, T, A, B>, other: PSetter<U, V, A, B>): (r: PSetter<Either<S, U>, Either<T, V>, A, B>)
    ensures forall b, s :: r.setTo(b)(Either.Left(s)) == Either.Left(p.modifyWith(Const(b))(s))
    ensures forall b, u :: r.setTo(b)(Either.Right(u)) == Either.Right(other.modifyWith(Const(b))(u))
  {
    var m := (f: A -> B) => (ac: Either<S, U>) => ac.Bimap(p.modifyWith(f), other.modifyWith(f));
    assert forall b, ac :: m(Const(b))(ac) == ac.Bimap(p.modifyWith(Const(b)), other.modifyWith(Const(b)));
    Invoke(m)
  }

  /** A Left whole is modified by this setter, a Right one by `other`; the side is kept. */
  lemma ChoiceModify<S(!new), T, U(!new), V, A, B(!new)>(p: PSetter<S, T, A, B>, other: PSetter<U, V, A, B>, f: A -> B, s: S, u: U)
    ensures Choice(p, other).modifyWith(f)(Either.Left(s)) == Either.Left(p.modifyWith(f)(s))
    ensures Choice(p, other).modifyWith(f)(Either.Right(u)) == Either.Right(other.modifyWith(f)(u))
  {
    var l: Either<S, U> := Either.Left(s);
    var r: Either<S, U> := Either.Right(u);
    assert Choice(p, other).modifyWith(f)(l) == l.Bimap(p.modifyWith(f), other.modifyWith(f));
    assert Choice(p, other).modifyWith(f)(r) == r.Bimap(p.modifyWith(f), other.modifyWith(f));
  }

  /** Joining two lawful setters gives a lawful setter. */
  lemma ChoicePreservesLaws<S(!new), U(!new), A(!new)>(p: PSetter<S, S, A, A>, other: PSetter<U, U, A, A>)
    requires IdentityLaw(p) && IdentityLaw(other)
    requires forall f, g :: CongruentAt(p, f, g) && CongruentAt(other, f, g)
    requires forall f, g :: ComposesAt(p, f, g) && ComposesAt(other, f, g)
    ensures SetLaw(Choice(p, other))
    ensures IdentityLaw(Choice(p, other))
    ensures forall f, g :: CongruentAt(Choice(p, other), f, g)
    ensures forall f, g :: ComposesAt(Choice(p, other), f, g)
  {
    var c := Choice(p, other);
    forall s ensures c.modifyWith(Id)(s) == s {
      match s {
        case Left(x) =>
        case Right(y) =>
      }
    }
    forall f: A -> A, g: A -> A ensures CongruentAt(c, f, g) && ComposesAt(c, f, g) {
      assert CongruentAt(p, f, g) && CongruentAt(other, f, g);
      assert ComposesAt(p, f, g) && ComposesAt(other, f, g);
      forall s | forall a :: f(a) == g(a) ensures c.modifyWith(f)(s) == c.modifyWith(g)(s) {
        match s {
          case Left(x) =>
          case Right(y) =>
        }
      }
      forall s ensures c.modifyWith(g)(c.modifyWith(f)(s)) == c.modifyWith(AndThen(f, g))(s) {
        match s {
          case Left(x) =>
          case Right(y) =>
        }
      }
    }
  }

  // ---------------------------------------------------------------------
  // compose / plus

  /** A setter into the focus of this one: modifying the inner focus through both. */
  function Compose<S, T, A, B, C, D(!new)>(p: PSetter<S, T, A, B>, other: PSetter<A, B, C, D>): (r: PSetter<S, T, C, D>)
    ensures forall d :: r.setTo(d) == p.modifyWith(other.modifyWith(Const(d)))
  {
    Invoke((fb: C -> D) => p.modifyWith(other.modifyWith(fb)))
  }

  /** `(p compose other).modify(f)` is `p.modify(other.modify(f))`, and its `set(d)` modifies with the constant `d` through both. */
  lemma ComposeModify<S, T, A, B, C, D(!new)>(p: PSetter<S, T, A, B>, other: PSetter<A, B, C, D>, f: C -> D, d: D)
    ensures Compose(p, other).modifyWith(f) == p.modifyWith(other.modifyWith(f))
    ensures Compose(p, other).setTo(d) == p.modifyWith(other.modifyWith(Const(d)))
  {
  }

  /** `plus` is `compose`. */
  function Plus<S, T, A, B, C, D(!new)>(p: PSetter<S, T, A, B>, other: PSetter<A, B, C, D>): (r: PSetter<S, T, C, D>)
    ensures r == Compose(p, other)
  {
    Compose(p, other)
  }

  /** Composition is associative: both groupings modify and set alike. */
  lemma ComposeAssociative<S, T, A, B, C, D(!new), E, F(!new)>(p: PSetter<S, T, A, B>, q: PSetter<A, B, C, D>, o: PSetter<C, D, E, F>, f: E -> F, x: F)
    ensures Compose(Compose(p, q), o).modifyWith(f) == Compose(p, Compose(q, o)).modifyWith(f)
    ensures Compose(Compose(p, q), o).setTo(x) == Compose(p, Compose(q, o)).setTo(x)
  {
  }

  /** Composing two setters that keep the identity keeps the identity. */
  lemma ComposeKeepsIdentity<S(!new), A(!new), C(!new)>(p: PSetter<S, S, A, A>, other: PSetter<A, A, C, C>)
    requires IdentityLaw(p) && IdentityLaw(other)
    requires CongruentAt(p, other.modifyWith(Id), Id)
    ensures IdentityLaw(Compose(p, other))
  {
    var c := Compose(p, other);
    forall s ensures c.modifyWith(Id)(s) == s {
      assert c.modifyWith(Id)(s) == p.modifyWith(other.modifyWith(Id))(s);
    }
  }

  /** Composing two congruent setters gives a congruent setter. */
  lemma ComposeCongruent<S(!new), A(!new), C(!new)>(p: PSetter<S, S, A, A>, other: PSetter<A, A, C, C>, f: C -> C, g: C -> C)
    requires CongruentAt(other, f, g)
    requires CongruentAt(p, other.modifyWith(f), other.modifyWith(g))
    ensures CongruentAt(Compose(p, other), f, g)
  {
    var c := Compose(p, other);
    assert c.modifyWith(f) == p.modifyWith(other.modifyWith(f));
    assert c.modifyWith(g) == p.modifyWith(other.modifyWith(g));
  }

  /** Composing two setters that compose their modifications gives one that does too. */
  lemma ComposeComposes<S(!new), A(!new), C(!new)>(p: PSetter<S, S, A, A>, other: PSetter<A, A, C, C>, f: C -> C, g: C -> C)
    requires ComposesAt(other, f, g)
    requires ComposesAt(p, other.modifyWith(f), other.modifyWith(g))
    requires CongruentAt(p, AndThen(other.modifyWith(f), other.modifyWith(g)), other.modifyWith(AndThen(f, g)))
    ensures ComposesAt(Compose(p, other), f, g)
  {
    var c := Compose(p, other);
    var h := AndThen(other.modifyWith(f), other.modifyWith(g));
    forall a ensures h(a) == other.modifyWith(AndThen(f, g))(a) {
      assert other.modifyWith(g)(other.modifyWith(f)(a)) == other.modifyWith(AndThen(f, g))(a);
    }
    forall s ensures c.modifyWith(g)(c.modifyWith(f)(s)) == c.modifyWith(AndThen(f, g))(s) {
      assert c.modifyWith(g)(c.modifyWith(f)(s)) == p.modifyWith(other.modifyWith(g))(p.modifyWith(other.modifyWith(f))(s));
      assert p.modifyWith(other.modifyWith(g))(p.modifyWith(other.modifyWith(f))(s)) == p.modifyWith(h)(s);
    }
  }

  /** Composing two lawful setters gives a lawful setter. */
  lemma ComposePreservesLaws<S(!new), A(!new), C(!new)>(p: PSetter<S, S, A, A>, other: PSetter<A, A, C, C>)
    requires IdentityLaw(p) && IdentityLaw(other)
    requires forall f, g :: CongruentAt(p, f, g)
    requires forall f, g :: CongruentAt(other, f, g)
    requires forall f, g :: ComposesAt(p, f, g)
    requires forall f, g :: ComposesAt(other, f, g)
    ensures SetLaw(Compose(p, other))
    ensures IdentityLaw(Compose(p, other))
    ensures forall f, g :: CongruentAt(Compose(p, other), f, g)
    ensures forall f, g :: ComposesAt(Compose(p, other), f, g)
  {
    assert CongruentAt(p, other.modifyWith(Id), Id);
    ComposeKeepsIdentity(p, other);
    forall f: C -> C, g: C -> C ensures CongruentAt(Compose(p, other), f, g) {
      assert CongruentAt(other, f, g);
      assert CongruentAt(p, other.modifyWith(f), other.modifyWith(g));
      ComposeCongruent(p, other, f, g);
    }
    forall f: C -> C, g: C -> C ensures ComposesAt(Compose(p, other), f, g) {
      assert ComposesAt(other, f, g);
      assert ComposesAt(p, other.modifyWith(f), other.modifyWith(g));
      assert CongruentAt(p, AndThen(other.modifyWith(f), other.modifyWith(g)), other.modifyWith(AndThen(f, g)));
      ComposeComposes(p, other, f, g);
    }
  }

  // ---------------------------------------------------------------------
  // fromFunctor, for the list functor

  /** `fromFunctor` specialised to lists: modify maps the function over the list. */
  function FromListFunctor<A(!new), B(!new)>(): (r: PSetter<seq<A>, seq<B>, A, B>)
    ensures forall b, s :: |r.setTo(b)(s)| == |s|
    ensures forall b, s, i :: 0 <= i < |s| ==> r.setTo(b)(s)[i] == b
  {
    Invoke((f: A -> B) => (fs: seq<A>) => Map(fs, f))
  }

  lemma FromListFunctorLawful<A(!new)>()
    ensures SetLaw(FromListFunctor<A, A>())
    ensures IdentityLaw(FromListFunctor<A, A>())
    ensures forall f, g :: CongruentAt(FromListFunctor<A, A>(), f, g)
    ensures forall f, g :: ComposesAt(FromListFunctor<A, A>(), f, g)
  {
    var p := FromListFunctor<A, A>();
    forall s ensures p.modifyWith(Id)(s) == s {
      assert Map(s, Id) == s;
    }
    forall f: A -> A, g: A -> A ensures CongruentAt(p, f, g) && ComposesAt(p, f, g) {
      forall s | forall a :: f(a) == g(a) ensures p.modifyWith(f)(s) == p.modifyWith(g)(s) {
        assert Map(s, f) == Map(s, g);
      }
      forall s ensures p.modifyWith(g)(p.modifyWith(f)(s)) == p.modifyWith(AndThen(f, g))(s) {
        assert Map(Map(s, f), g) == Map(s, AndThen(f, g));
      }
    }
  }
}
