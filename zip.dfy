/**
 * The n-ary `zip` of `Iterable.kt` is not a positional zip but a cartesian
 * product: nested loops, the receiver outermost, append the `map`
 * argument's result for every combination to a buffer. The three-list
 * overload passes the one-element `unit` list for the remaining seven loops, which therefore run once each;
 * the method below keeps the three loops that range over real lists.
 * `ap` is the same product written with `flatMap`.
 */
module Product {
  import opened Base

  // ---------------------------------------------------------------------
  // Index arithmetic of a list of equally long blocks

  lemma {:induction false} BlockIndexInRange(i: nat, n: nat, j: nat, m: nat)
    requires i < n && j < m
    ensures i * m + j < n * m
    decreases n
  {
    if i < n - 1 {
      BlockIndexInRange(i, n - 1, j, m);
    }
    assert n * m == (n - 1) * m + m;
  }

  lemma MulAssoc(a: nat, b: nat, c: nat)
    ensures a * (b * c) == a * b * c
  {
  }

  lemma IndexSplit(i: nat, j: nat, k: nat, c: nat, d: nat)
    ensures (i * c + j) * d + k == i * (c * d) + (j * d + k)
  {
  }

  /** Concatenating blocks of `m` elements each gives `|xs| * m` elements. */
  lemma {:induction false} FlatMapUniformLength<A, B>(xs: seq<A>, g: A -> seq<B>, m: nat)
    requires forall k :: 0 <= k < |xs| ==> |g(xs[k])| == m
    ensures |FlatMap(xs, g)| == |xs| * m
  {
    if xs != [] {
      FlatMapUniformLength(xs[1..], g, m);
      assert |xs| * m == m + (|xs| - 1) * m;
    }
  }

  /** Element `j` of block `i` sits at index `i * m + j`. */
  lemma {:induction false} FlatMapUniformAt<A, B>(xs: seq<A>, g: A -> seq<B>, m: nat, i: nat, j: nat)
    requires forall k :: 0 <= k < |xs| ==> |g(xs[k])| == m
    requires i < |xs| && j < m
    ensures i * m + j < |FlatMap(xs, g)|
    ensures FlatMap(xs, g)[i * m + j] == g(xs[i])[j]
  {
    FlatMapUniformLength(xs, g, m);
    BlockIndexInRange(i, |xs|, j, m);
    if i > 0 {
      FlatMapUniformAt(xs[1..], g, m, i - 1, j);
      assert i * m + j == m + ((i - 1) * m + j);
    }
  }

  lemma FlatMapSnoc<A, B>(xs: seq<A>, x: A, g: A -> seq<B>)
    ensures FlatMap(xs + [x], g) == FlatMap(xs, g) + g(x)
  {
    FlatMapAppend(xs, [x], g);
    assert [x][1..] == [];
  }

  // ---------------------------------------------------------------------
  // zip

  /** The innermost loop for fixed `b` and `c`. */
  function Line<B, C, D, E>(b: B, c: C, ds: seq<D>, transform: (B, C, D) -> E): (r: seq<E>)
    ensures |r| == |ds|
  {
    Map(ds, (d: D) => transform(b, c, d))
  }

  /** The two inner loops for fixed `b`. */
  function Plane<B, C, D, E>(b: B, cs: seq<C>, ds: seq<D>, transform: (B, C, D) -> E): seq<E> {
    FlatMap(cs, (c: C) => Line(b, c, ds, transform))
  }

  /** What the three loops append, in order. */
  function Product3<B, C, D, E>(bs: seq<B>, cs: seq<C>, ds: seq<D>, transform: (B, C, D) -> E): seq<E> {
    FlatMap(bs, (b: B) => Plane(b, cs, ds, transform))
  }

  lemma PlaneLength<B, C, D, E>(b: B, cs: seq<C>, ds: seq<D>, transform: (B, C, D) -> E)
    ensures |Plane(b, cs, ds, transform)| == |cs| * |ds|
  {
    FlatMapUniformLength(cs, (c: C) => Line(b, c, ds, transform), |ds|);
  }

  /** There is one result for every combination of one element from each list. */
  lemma Product3Length<B, C, D, E>(bs: seq<B>, cs: seq<C>, ds: seq<D>, transform: (B, C, D) -> E)
    ensures |Product3(bs, cs, ds, transform)| == |bs| * |cs| * |ds|
  {
    forall k | 0 <= k < |bs| ensures |Plane(bs[k], cs, ds, transform)| == |cs| * |ds| {
      PlaneLength(bs[k], cs, ds, transform);
    }
    FlatMapUniformLength(bs, (b: B) => Plane(b, cs, ds, transform), |cs| * |ds|);
    MulAssoc(|bs|, |cs|, |ds|);
  }

  /** Within one plane, the pair `(cs[j], ds[k])` sits at index `j * |ds| + k`. */
  lemma PlaneAt<B, C, D, E>(b: B, cs: seq<C>, ds: seq<D>, transform: (B, C, D) -> E, j: nat, k: nat)
    requires j < |cs| && k < |ds|
    ensures j * |ds| + k < |Plane(b, cs, ds, transform)| == |cs| * |ds|
    ensures Plane(b, cs, ds, transform)[j * |ds| + k] == transform(b, cs[j], ds[k])
  {
    FlatMapUniformAt(cs, (c: C) => Line(b, c, ds, transform), |ds|, j, k);
    PlaneLength(b, cs, ds, transform);
  }

  /**
   * The combination `(bs[i], cs[j], ds[k])` sits at index
   * `(i * |cs| + j) * |ds| + k`: the receiver varies slowest.
   */
  lemma Product3At<B, C, D, E>(bs: seq<B>, cs: seq<C>, ds: seq<D>, transform: (B, C, D) -> E, i: nat, j: nat, k: nat)
    requires i < |bs| && j < |cs| && k < |ds|
    ensures (i * |cs| + j) * |ds| + k < |Product3(bs, cs, ds, transform)|
    ensures Product3(bs, cs, ds, transform)[(i * |cs| + j) * |ds| + k] == transform(bs[i], cs[j], ds[k])
  {
    var plane := |cs| * |ds|;
    var offset := j * |ds| + k;
    forall x | 0 <= x < |bs| ensures |Plane(bs[x], cs, ds, transform)| == plane {
      PlaneLength(bs[x], cs, ds, transform);
    }
    PlaneAt(bs[i], cs, ds, transform, j, k);
    FlatMapUniformAt(bs, (b: B) => Plane(b, cs, ds, transform), plane, i, offset);
    IndexSplit(i, j, k, |cs|, |ds|);
  }

  lemma LineSnoc<B, C, D, E>(b: B, c: C, ds: seq<D>, k: nat, transform: (B, C, D) -> E)
    requires k < |ds|
    ensures Line(b, c, ds[..k + 1], transform) == Line(b, c, ds[..k], transform) + [transform(b, c, ds[k])]
  {
    var l := Line(b, c, ds[..k + 1], transform);
    assert l[..k] == Line(b, c, ds[..k], transform);
    assert l == l[..k] + [l[k]];
  }

  lemma PlaneSnoc<B, C, D, E>(b: B, cs: seq<C>, ds: seq<D>, j: nat, transform: (B, C, D) -> E)
    requires j < |cs|
    ensures Plane(b, cs[..j + 1], ds, transform) == Plane(b, cs[..j], ds, transform) + Line(b, cs[j], ds, transform)
  {
    assert cs[..j + 1] == cs[..j] + [cs[j]];
    FlatMapSnoc(cs[..j], cs[j], (c: C) => Line(b, c, ds, transform));
  }

  lemma Product3Snoc<B, C, D, E>(bs: seq<B>, cs: seq<C>, ds: seq<D>, i: nat, transform: (B, C, D) -> E)
    requires i < |bs|
    ensures Product3(bs[..i + 1], cs, ds, transform) == Product3(bs[..i], cs, ds, transform) + Plane(bs[i], cs, ds, transform)
  {
    assert bs[..i + 1] == bs[..i] + [bs[i]];
    FlatMapSnoc(bs[..i], bs[i], (b: B) => Plane(b, cs, ds, transform));
  }

  /** The innermost loop's step keeps its invariant. */
  lemma LineStep<B, C, D, E>(lines: seq<E>, b: B, c: C, ds: seq<D>, k: nat, transform: (B, C, D) -> E)
    requires k < |ds|
    ensures lines + Line(b, c, ds[..k], transform) + [transform(b, c, ds[k])] == lines + Line(b, c, ds[..k + 1], transform)
  {
    LineSnoc(b, c, ds, k, transform);
  }

  /** The end of the innermost loop keeps the middle loop's invariant. */
  lemma PlaneStep<B, C, D, E>(planes: seq<E>, lines: seq<E>, b: B, cs: seq<C>, ds: seq<D>, j: nat, transform: (B, C, D) -> E)
    requires j < |cs|
    requires lines == planes + Plane(b, cs[..j], ds, transform)
    ensures lines + Line(b, cs[j], ds[..|ds|], transform) == planes + Plane(b, cs[..j + 1], ds, transform)
  {
    assert ds[..|ds|] == ds;
    PlaneSnoc(b, cs, ds, j, transform);
  }

  /** The end of the middle loop keeps the outer loop's invariant. */
  lemma Product3Step<B, C, D, E>(planes: seq<E>, bs: seq<B>, cs: seq<C>, ds: seq<D>, i: nat, transform: (B, C, D) -> E)
    requires i < |bs|
    requires planes == Product3(bs[..i], cs, ds, transform)
    ensures planes + Plane(bs[i], cs[..|cs|], ds, transform) == Product3(bs[..i + 1], cs, ds, transform)
  {
    assert cs[..|cs|] == cs;
    Product3Snoc(bs, cs, ds, i, transform);
  }

  /**
   * The three-list `zip`: nested loops over the receiver, `cs` and `ds`
   * that append `transform(b, c, d)` to a buffer.
   */
  method Zip<B, C, D, E>(bs: seq<B>, cs: seq<C>, ds: seq<D>, transform: (B, C, D) -> E) returns (buffer: seq<E>)
    ensures buffer == Product3(bs, cs, ds, transform)
  {
    buffer := [];
    var i := 0;
    while i < |bs|
      invariant 0 <= i <= |bs|
      invariant buffer == Product3(bs[..i], cs, ds, transform)
    {
      var b := bs[i];
      ghost var planes := buffer;
      var j := 0;
      while j < |cs|
        invariant 0 <= j <= |cs|
        invariant buffer == planes + Plane(b, cs[..j], ds, transform)
      {
        var c := cs[j];
        ghost var lines := buffer;
        var k := 0;
        while k < |ds|
          invariant 0 <= k <= |ds|
          invariant buffer == lines + Line(b, c, ds[..k], transform)
        {
          LineStep(lines, b, c, ds, k, transform);
          buffer := buffer + [transform(b, c, ds[k])];
          k := k + 1;
        }
        PlaneStep(planes, lines, b, cs, ds, j, transform);
        j := j + 1;
      }
      Product3Step(planes, bs, cs, ds, i, transform);
      i := i + 1;
    }
    assert bs[..i] == bs;
  }

  // ---------------------------------------------------------------------
  // ap

  /**
   * `ap`: every function of `ff` applied to every element, the elements
   * varying slowest; one result per pair.
   */
  function Ap<A, B>(xs: seq<A>, ff: seq<A -> B>): (r: seq<B>)
    ensures |r| == |xs| * |ff|
  {
    var row := (a: A) => Map(ff, (f: A -> B) => f(a));
    FlatMapUniformLength(xs, row, |ff|);
    FlatMap(xs, row)
  }

  /** Result `i * |ff| + j` applies `ff[j]` to `xs[i]`. */
  lemma ApAt<A, B>(xs: seq<A>, ff: seq<A -> B>, i: nat, j: nat)
    requires i < |xs| && j < |ff|
    ensures i * |ff| + j < |Ap(xs, ff)|
    ensures Ap(xs, ff)[i * |ff| + j] == ff[j](xs[i])
  {
    var row := (a: A) => Map(ff, (f: A -> B) => f(a));
    FlatMapUniformAt(xs, row, |ff|, i, j);
  }
}
