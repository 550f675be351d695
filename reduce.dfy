/**
 * `reduceOrNull` and `reduceRightNull`: loops over an iterator that seed an
 * accumulator with `initial` of the first (last) element and fold the
 * rest in; an empty list gives `null`. The loops are specified by the
 * left and right folds below.
 */
module Reduction {
  import opened Base

  /** Left fold, peeled from the end: the last element is folded in last. */
  function FoldLeft<A, B>(acc: B, xs: seq<A>, op: (B, A) -> B): B {
    if xs == [] then acc else op(FoldLeft(acc, xs[..|xs| - 1], op), xs[|xs| - 1])
  }

  /** Right fold: the first element is folded in last. */
  function FoldRight<A, B>(xs: seq<A>, acc: B, op: (A, B) -> B): B {
    if xs == [] then acc else op(xs[0], FoldRight(xs[1..], acc, op))
  }

  /** The left fold read from the front: the first element is folded in first. */
  lemma {:induction false} FoldLeftCons<A, B>(acc: B, x: A, xs: seq<A>, op: (B, A) -> B)
    ensures FoldLeft(acc, [x] + xs, op) == FoldLeft(op(acc, x), xs, op)
    decreases |xs|
  {
    if xs != [] {
      var n := |xs|;
      assert ([x] + xs)[..n] == [x] + xs[..n - 1];
      FoldLeftCons(acc, x, xs[..n - 1], op);
    }
  }

  function Reverse<A>(xs: seq<A>): (r: seq<A>)
    ensures |r| == |xs|
    ensures forall i :: 0 <= i < |xs| ==> r[i] == xs[|xs| - 1 - i]
  {
    if xs == [] then [] else Reverse(xs[1..]) + [xs[0]]
  }

  /** A right fold is a left fold, with the arguments flipped, over the reversed list. */
  lemma {:induction false} FoldRightIsFoldLeftOfReverse<A, B>(xs: seq<A>, acc: B, op: (A, B) -> B)
    ensures FoldRight(xs, acc, op) == FoldLeft(acc, Reverse(xs), (b: B, a: A) => op(a, b))
  {
    if xs != [] {
      FoldRightIsFoldLeftOfReverse(xs[1..], acc, op);
      var rev := Reverse(xs);
      assert rev[..|rev| - 1] == Reverse(xs[1..]);
    }
  }

  /** With an associative operation, folding in a combined seed is combining with the folded rest. */
  lemma {:induction false} FoldLeftShift<A(!new)>(a: A, b: A, xs: seq<A>, op: (A, A) -> A)
    requires Associative(op)
    ensures FoldLeft(op(a, b), xs, op) == op(a, FoldLeft(b, xs, op))
  {
    if xs != [] {
      FoldLeftShift(a, b, xs[..|xs| - 1], op);
    }
  }

  /**
   * With an associative operation (and `initial` the identity), reducing
   * from the left and from the right give the same result.
   */
  lemma {:induction false} ReduceDirectionsAgree<A(!new)>(xs: seq<A>, op: (A, A) -> A)
    requires Associative(op)
    requires xs != []
    ensures FoldLeft(xs[0], xs[1..], op) == FoldRight(xs[..|xs| - 1], xs[|xs| - 1], op)
  {
    var n := |xs|;
    if n >= 2 {
      assert xs[1..] == [xs[1]] + xs[2..];
      FoldLeftCons(xs[0], xs[1], xs[2..], op);
      FoldLeftShift(xs[0], xs[1], xs[2..], op);
      ReduceDirectionsAgree(xs[1..], op);
      assert xs[1..][1..] == xs[2..];
      assert xs[..n - 1][1..] == xs[1..][..n - 2];
    }
  }

  /** `reduceOrNull`: `None` exactly for the empty list, else the left fold from `initial(first)`. */
  method ReduceOrNull<A, B>(xs: seq<A>, initial: A -> B, op: (B, A) -> B) returns (r: Option<B>)
    ensures r.None? <==> xs == []
    ensures xs != [] ==> r == Some(FoldLeft(initial(xs[0]), xs[1..], op))
  {
    if |xs| == 0 {
      return None;
    }
    var acc := initial(xs[0]);
    var i := 1;
    while i < |xs|
      invariant 1 <= i <= |xs|
      invariant acc == FoldLeft(initial(xs[0]), xs[1..i], op)
    {
      assert xs[1..i + 1][..i - 1] == xs[1..i];
      acc := op(acc, xs[i]);
      i := i + 1;
    }
    assert xs[1..i] == xs[1..];
    return Some(acc);
  }

  /** `reduceRightNull`: `None` exactly for the empty list, else the right fold from `initial(last)`. */
  method ReduceRightNull<A, B>(xs: seq<A>, initial: A -> B, op: (A, B) -> B) returns (r: Option<B>)
    ensures r.None? <==> xs == []
    ensures xs != [] ==> r == Some(FoldRight(xs[..|xs| - 1], initial(xs[|xs| - 1]), op))
  {
    if |xs| == 0 {
      return None;
    }
    var last := |xs| - 1;
    var acc := initial(xs[last]);
    var i := last;
    while i > 0
      invariant 0 <= i <= last
      invariant acc == FoldRight(xs[i..last], initial(xs[last]), op)
    {
      assert xs[i - 1..last][1..] == xs[i..last];
      acc := op(xs[i - 1], acc);
      i := i - 1;
    }
    assert xs[0..last] == xs[..last];
    return Some(acc);
  }
}
