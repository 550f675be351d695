/**
 * The remaining list combinators of `Iterable.kt`: splitting a list of
 * Eithers or Validateds into its two sides, lexicographic comparison
 * (written with `align`), fair interleaving, and the two `replicate`s.
 */
module Lists {
  import opened Base
  import opened Alignment
  import Validation

  // ---------------------------------------------------------------------
  // separateEither / separateValidated

  /** What one Either contributes to the Lefts. */
  function LeftOf<A, B>(x: Either<A, B>): seq<A> {
    x.Fold(a => [a], _ => [])
  }

  /** What one Either contributes to the Rights. */
  function RightOf<A, B>(x: Either<A, B>): seq<B> {
    x.Fold(_ => [], b => [b])
  }

  /**
   * Nothing is lost or invented: the two sides together are as long as the
   * input, and a value is on a side exactly when the input holds it in
   * that case.
   */
  lemma {:induction false} SidesPartition<A, B>(xs: seq<Either<A, B>>)
    ensures |FlatMap(xs, LeftOf)| + |FlatMap(xs, RightOf)| == |xs|
    ensures forall k :: 0 <= k < |xs| && xs[k].Left? ==> xs[k].left in FlatMap(xs, LeftOf)
    ensures forall k :: 0 <= k < |xs| && xs[k].Right? ==> xs[k].right in FlatMap(xs, RightOf)
    ensures forall i :: 0 <= i < |FlatMap(xs, LeftOf)| ==> Either.Left(FlatMap(xs, LeftOf)[i]) in xs
    ensures forall i :: 0 <= i < |FlatMap(xs, RightOf)| ==> Either.Right(FlatMap(xs, RightOf)[i]) in xs
  {
    if xs != [] {
      SidesPartition(xs[1..]);
      var ls, rs := FlatMap(xs[1..], LeftOf), FlatMap(xs[1..], RightOf);
      assert FlatMap(xs, LeftOf) == LeftOf(xs[0]) + ls;
      assert FlatMap(xs, RightOf) == RightOf(xs[0]) + rs;
      forall k | 1 <= k < |xs| ensures xs[k] == xs[1..][k - 1] { }
      forall i | 0 <= i < |ls| ensures Either.Left(ls[i]) in xs[1..] { }
      forall i | 0 <= i < |rs| ensures Either.Right(rs[i]) in xs[1..] { }
    }
  }

  /**
   * The Lefts of a list of Eithers and its Rights, each in input order: the
   * sides together are as long as the input, and a value is on a side
   * exactly when the input holds it in that case.
   */
  function SeparateEither<A, B>(xs: seq<Either<A, B>>): (r: (seq<A>, seq<B>))
    ensures |r.0| + |r.1| == |xs|
    ensures forall k :: 0 <= k < |xs| && xs[k].Left? ==> xs[k].left in r.0
    ensures forall k :: 0 <= k < |xs| && xs[k].Right? ==> xs[k].right in r.1
    ensures forall i :: 0 <= i < |r.0| ==> Either.Left(r.0[i]) in xs
    ensures forall i :: 0 <= i < |r.1| ==> Either.Right(r.1[i]) in xs
  {
    SidesPartition(xs);
    (FlatMap(xs, LeftOf), FlatMap(xs, RightOf))
  }

  /** Separating a concatenation concatenates the separations: input order is kept on both sides. */
  lemma SeparateEitherAppend<A, B>(xs: seq<Either<A, B>>, ys: seq<Either<A, B>>)
    ensures SeparateEither(xs + ys) == (SeparateEither(xs).0 + SeparateEither(ys).0,
                                        SeparateEither(xs).1 + SeparateEither(ys).1)
  {
    FlatMapAppend(xs, ys, LeftOf);
    FlatMapAppend(xs, ys, RightOf);
  }

  /**
   * The errors of a list of Validateds and its values, each in input order:
   * what `separateEither` gives after `toEither`.
   */
  function SeparateValidated<A, B>(xs: seq<Validation.Validated<A, B>>): (r: (seq<A>, seq<B>))
    ensures r == SeparateEither(Map(xs, Validation.ToEither))
  {
    var invalid := (x: Validation.Validated<A, B>) => Validation.Fold(x, a => [a], _ => []);
    var valid := (x: Validation.Validated<A, B>) => Validation.Fold(x, _ => [], b => [b]);
    FlatMapMap(xs, Validation.ToEither, LeftOf, invalid);
    FlatMapMap(xs, Validation.ToEither, RightOf, valid);
    (FlatMap(xs, invalid), FlatMap(xs, valid))
  }

  // ---------------------------------------------------------------------
  // compareTo

  /** The left fold of `compareTo`: the first non-zero comparison wins. */
  function FirstNonZero(acc: int, ns: seq<int>): int
    decreases ns
  {
    if ns == [] then acc else FirstNonZero(if acc == 0 then ns[0] else acc, ns[1..])
  }

  lemma {:induction false} FirstNonZeroSticks(acc: int, ns: seq<int>)
    requires acc != 0
    ensures FirstNonZero(acc, ns) == acc
    decreases ns
  {
    if ns != [] {
      FirstNonZeroSticks(acc, ns[1..]);
    }
  }

  /** Reference lexicographic order: the first differing position decides, and a proper prefix is smaller. */
  function Lex<A>(cmp: (A, A) -> int, xs: seq<A>, ys: seq<A>): int {
    if xs == [] && ys == [] then 0
    else if xs == [] then -1
    else if ys == [] then 1
    else if cmp(xs[0], ys[0]) != 0 then cmp(xs[0], ys[0])
    else Lex(cmp, xs[1..], ys[1..])
  }

  /** Folding the aligned comparisons from zero gives the lexicographic order. */
  lemma {:induction false} AlignedVerdictIsLex<A>(cmp: (A, A) -> int, xs: seq<A>, ys: seq<A>)
    ensures FirstNonZero(0, AlignWith(xs, ys, (ior: Ior<A, A>) => ior.Fold(_ => 1, _ => -1, cmp))) == Lex(cmp, xs, ys)
  {
    var g := (ior: Ior<A, A>) => ior.Fold(_ => 1, _ => -1, cmp);
    var s := AlignWith(xs, ys, g);
    if xs == [] && ys == [] {
    } else if xs == [] {
      AlignAt(xs, ys, 0);
      FirstNonZeroSticks(-1, s[1..]);
    } else if ys == [] {
      AlignAt(xs, ys, 0);
      FirstNonZeroSticks(1, s[1..]);
    } else {
      AlignAt(xs, ys, 0);
      assert s[1..] == AlignWith(xs[1..], ys[1..], g);
      if s[0] != 0 {
        FirstNonZeroSticks(s[0], s[1..]);
      } else {
        AlignedVerdictIsLex(cmp, xs[1..], ys[1..]);
      }
    }
  }

  /**
   * Comparison of two lists, given the element type's `compareTo`: it is the
   * lexicographic order, an element without a partner counting as greater.
   */
  function CompareTo<A>(cmp: (A, A) -> int, xs: seq<A>, ys: seq<A>): (r: int)
    ensures r == Lex(cmp, xs, ys)
  {
    AlignedVerdictIsLex(cmp, xs, ys);
    FirstNonZero(0, AlignWith(xs, ys, (ior: Ior<A, A>) => ior.Fold(_ => 1, _ => -1, cmp)))
  }

  function Sign(n: int): int { if n < 0 then -1 else if n == 0 then 0 else 1 }

  /** A list equals itself when every element does. */
  lemma CompareToReflexive<A(!new)>(cmp: (A, A) -> int, xs: seq<A>)
    requires forall a :: cmp(a, a) == 0
    ensures CompareTo(cmp, xs, xs) == 0
  {
    LexReflexive(cmp, xs);
  }

  lemma {:induction false} LexReflexive<A(!new)>(cmp: (A, A) -> int, xs: seq<A>)
    requires forall a :: cmp(a, a) == 0
    ensures Lex(cmp, xs, xs) == 0
  {
    if xs != [] {
      LexReflexive(cmp, xs[1..]);
    }
  }

  /** When the element order is antisymmetric, so is the list order. */
  lemma CompareToAntisymmetric<A(!new)>(cmp: (A, A) -> int, xs: seq<A>, ys: seq<A>)
    requires forall a, b :: Sign(cmp(a, b)) == -Sign(cmp(b, a))
    ensures Sign(CompareTo(cmp, xs, ys)) == -Sign(CompareTo(cmp, ys, xs))
  {
    LexAntisymmetric(cmp, xs, ys);
  }

  lemma {:induction false} LexAntisymmetric<A(!new)>(cmp: (A, A) -> int, xs: seq<A>, ys: seq<A>)
    requires forall a, b :: Sign(cmp(a, b)) == -Sign(cmp(b, a))
    ensures Sign(Lex(cmp, xs, ys)) == -Sign(Lex(cmp, ys, xs))
  {
    if xs != [] && ys != [] {
      assert Sign(cmp(xs[0], ys[0])) == -Sign(cmp(ys[0], xs[0]));
      LexAntisymmetric(cmp, xs[1..], ys[1..]);
    }
  }

  lemma CompareToExamples()
    ensures CompareTo((a: int, b: int) => a - b, [1, 2], [1, 3]) < 0
    ensures CompareTo((a: int, b: int) => a - b, [1, 2], [1]) > 0
    ensures CompareTo((a: int, b: int) => a - b, [2], [1, 5]) > 0
  {
    var cmp := (a: int, b: int) => a - b;
    assert [1, 2][1..] == [2] && [1, 3][1..] == [3];
    assert [1][1..] == [];
  }

  // ---------------------------------------------------------------------
  // interleave

  /** Takes elements alternately from the two lists, starting with the receiver; the longer one's rest ends the result. */
  function Interleave<A>(xs: seq<A>, ys: seq<A>): (r: seq<A>)
    ensures |r| == |xs| + |ys|
    decreases |xs| + |ys|
  {
    if xs == [] then ys else [xs[0]] + Interleave(ys, xs[1..])
  }

  /** Nothing is lost or invented: the result is a permutation of the two lists together. */
  lemma {:induction false} InterleavePermutation<A>(xs: seq<A>, ys: seq<A>)
    ensures multiset(Interleave(xs, ys)) == multiset(xs) + multiset(ys)
    decreases |xs| + |ys|
  {
    if xs != [] {
      InterleavePermutation(ys, xs[1..]);
      assert xs == [xs[0]] + xs[1..];
    }
  }

  /** Two steps of the alternation: one element of each list, then the interleaving of their tails. */
  lemma InterleaveTwice<A>(xs: seq<A>, ys: seq<A>)
    requires xs != [] && ys != []
    ensures Interleave(xs, ys) == [xs[0], ys[0]] + Interleave(xs[1..], ys[1..])
  {
    var rest := Interleave(xs[1..], ys[1..]);
    assert Interleave(xs, ys) == [xs[0]] + Interleave(ys, xs[1..]);
    assert Interleave(ys, xs[1..]) == [ys[0]] + rest;
    assert [xs[0]] + ([ys[0]] + rest) == [xs[0], ys[0]] + rest;
  }

  /** While both lists last, even positions come from the receiver and odd ones from the other list. */
  lemma {:induction false} InterleaveAt<A>(xs: seq<A>, ys: seq<A>, i: nat)
    requires i < 2 * Min(|xs|, |ys|)
    ensures Interleave(xs, ys)[i] == if i % 2 == 0 then xs[i / 2] else ys[i / 2]
  {
    var rest := Interleave(xs[1..], ys[1..]);
    InterleaveTwice(xs, ys);
    if i >= 2 {
      InterleaveAt(xs[1..], ys[1..], i - 2);
      assert (i - 2) % 2 == i % 2 && (i - 2) / 2 == i / 2 - 1;
      assert Interleave(xs, ys)[i] == rest[i - 2];
    }
  }

  lemma InterleaveWithEmpty<A>(xs: seq<A>)
    ensures Interleave(xs, []) == xs
  {
    if xs != [] {
      assert Interleave([], xs[1..]) == xs[1..];
    }
  }

  /** After the alternating part, the rest of the longer list follows unchanged. */
  lemma {:induction false} InterleaveRest<A>(xs: seq<A>, ys: seq<A>)
    ensures Interleave(xs, ys)[2 * Min(|xs|, |ys|)..] == xs[Min(|xs|, |ys|)..] + ys[Min(|xs|, |ys|)..]
  {
    if xs == [] {
      assert ys[0..] == ys;
    } else if ys == [] {
      InterleaveWithEmpty(xs);
      assert xs[0..] == xs;
    } else {
      var m := Min(|xs|, |ys|);
      var rest := Interleave(xs[1..], ys[1..]);
      InterleaveTwice(xs, ys);
      InterleaveRest(xs[1..], ys[1..]);
      assert Min(|xs[1..]|, |ys[1..]|) == m - 1;
      assert Interleave(xs, ys)[2 * m..] == rest[2 * (m - 1)..];
      assert xs[1..][m - 1..] == xs[m..];
      assert ys[1..][m - 1..] == ys[m..];
    }
  }

  // ---------------------------------------------------------------------
  // replicate

  /** `n` copies of the list; none when `n <= 0`. */
  function Replicate<A>(xs: seq<A>, n: int): (r: seq<seq<A>>)
    ensures |r| == if n <= 0 then 0 else n
    ensures forall i :: 0 <= i < |r| ==> r[i] == xs
  {
    if n <= 0 then [] else seq(n, _ => xs)
  }

  /** Kotlin's `zip` of two lists: pairs by position, truncated to the shorter list. */
  function ZipWith<A, B, C>(xs: seq<A>, ys: seq<B>, f: (A, B) -> C): (r: seq<C>)
    ensures |r| == Min(|xs|, |ys|)
    ensures forall i :: 0 <= i < |r| ==> r[i] == f(xs[i], ys[i])
  {
    seq(Min(|xs|, |ys|), i requires 0 <= i < Min(|xs|, |ys|) => f(xs[i], ys[i]))
  }

  /** `a` combined with itself `n` times onto the Monoid's `empty`. */
  function Power<A>(combine: (A, A) -> A, empty: A, a: A, n: nat): A {
    if n == 0 then empty else combine(a, Power(combine, empty, a, n - 1))
  }

  /**
   * `replicate(n, MA)`: `[empty]` when `n <= 0`, otherwise the list zipped
   * with `replicate(n - 1)` by the Monoid's combine. Because the zip is
   * positional and `replicate(n - 1)` has at most one element, only the
   * first element of the list takes part, combined `n` times.
   */
  function ReplicateCombine<A>(xs: seq<A>, n: int, empty: A, combine: (A, A) -> A): (r: seq<A>)
    ensures n <= 0 ==> r == [empty]
    ensures n > 0 && xs == [] ==> r == []
    ensures n > 0 && xs != [] ==> r == [Power(combine, empty, xs[0], n)]
    decreases if n <= 0 then 0 else n
  {
    if n <= 0 then [empty]
    else ZipWith(xs, ReplicateCombine(xs, n - 1, empty, combine), combine)
  }
}
