/**
 * The Ior-based alignment family over lists: `align` pairs two lists
 * position by position without truncating, tagging each position with
 * whether the left list, the right list, or both still had an element there.
 * Everything else (padded zips, semigroup alignment, `unalign`, `crosswalk`)
 * is built on it.
 */
module Alignment {
  import opened Base

  // ---------------------------------------------------------------------
  // align

  /** Every element of a list that has no partner, tagged as a left one. */
  function AllLeft<A, B>(ls: seq<A>): (r: seq<Ior<A, B>>) {
    Map(ls, (a: A) => Ior.Left(a))
  }

  /** Every element of a list that has no partner, tagged as a right one. */
  function AllRight<A, B>(rs: seq<B>): (r: seq<Ior<A, B>>) {
    Map(rs, (b: B) => Ior.Right(b))
  }

  /** `alignRec`: `Both` while both lists last, then the longer list's tail. */
  function Align<A, B>(ls: seq<A>, rs: seq<B>): (r: seq<Ior<A, B>>)
    ensures |r| == Max(|ls|, |rs|)
  {
    if ls == [] then AllRight(rs)
    else if rs == [] then AllLeft(ls)
    else [Ior.Both(ls[0], rs[0])] + Align(ls[1..], rs[1..])
  }

  /** The tag at each position is decided only by which list still has an element there. */
  lemma {:induction false} AlignAt<A, B>(ls: seq<A>, rs: seq<B>, i: nat)
    requires i < Max(|ls|, |rs|)
    ensures i < |ls| && i < |rs| ==> Align(ls, rs)[i] == Ior.Both(ls[i], rs[i])
    ensures |rs| <= i ==> Align(ls, rs)[i] == Ior.Left(ls[i])
    ensures |ls| <= i ==> Align(ls, rs)[i] == Ior.Right(rs[i])
  {
    if ls != [] && rs != [] && i > 0 {
      AlignAt(ls[1..], rs[1..], i - 1);
    }
  }

  /** `align` with a function applied to every Ior. */
  function AlignWith<A, B, C>(ls: seq<A>, rs: seq<B>, fa: Ior<A, B> -> C): (r: seq<C>)
    ensures |r| == Max(|ls|, |rs|)
    ensures forall i :: 0 <= i < |r| ==> r[i] == fa(Align(ls, rs)[i])
  {
    Map(Align(ls, rs), fa)
  }

  /** The examples of the documentation. */
  lemma AlignExamples()
    ensures Align([1, 2], ["a"]) == [Ior.Both(1, "a"), Ior.Left(2)]
    ensures Align([1], ["a", "b"]) == [Ior.Both(1, "a"), Ior.Right("b")]
  {
    assert Align<int, string>([2], []) == [Ior.Left(2)];
    assert Align<int, string>([], ["b"]) == [Ior.Right("b")];
    assert [1, 2][1..] == [2];
    assert ["a", "b"][1..] == ["b"];
  }

  // ---------------------------------------------------------------------
  // Padded zips

  /** Each Ior as a pair whose absent side is `None` (Kotlin's `null`). */
  function IorToPair<A, B>(ior: Ior<A, B>): (Option<A>, Option<B>) {
    ior.Fold(a => (Some(a), None), b => (None, Some(b)), (a, b) => (Some(a), Some(b)))
  }

  function PadZip<A, B>(xs: seq<A>, ys: seq<B>): (r: seq<(Option<A>, Option<B>)>)
    ensures |r| == Max(|xs|, |ys|)
  {
    AlignWith(xs, ys, IorToPair)
  }

  /** Position `i` of `padZip` holds whatever each list has at `i`, `None` past its end. */
  lemma PadZipAt<A, B>(xs: seq<A>, ys: seq<B>, i: nat)
    requires i < Max(|xs|, |ys|)
    ensures PadZip(xs, ys)[i] == (At(xs, i), At(ys, i))
  {
    AlignAt(xs, ys, i);
  }

  /** `[1, 2].padZip(["a"]) == [(1, "a"), (2, null)]`, and the two other documented cases. */
  lemma PadZipExamples()
    ensures PadZip([1, 2], ["a"]) == [(Some(1), Some("a")), (Some(2), None)]
    ensures PadZip([1], ["a", "b"]) == [(Some(1), Some("a")), (None, Some("b"))]
    ensures PadZip([1, 2], ["a", "b"]) == [(Some(1), Some("a")), (Some(2), Some("b"))]
  {
    PadZipAt([1, 2], ["a"], 0);
    PadZipAt([1, 2], ["a"], 1);
    PadZipAt([1], ["a", "b"], 0);
    PadZipAt([1], ["a", "b"], 1);
    PadZipAt([1, 2], ["a", "b"], 0);
    PadZipAt([1, 2], ["a", "b"], 1);
  }

  function PadZipWith<A, B, C>(xs: seq<A>, ys: seq<B>, fa: (Option<A>, Option<B>) -> C): (r: seq<C>)
    ensures |r| == Max(|xs|, |ys|)
    ensures forall i :: 0 <= i < |r| ==> r[i] == fa(PadZip(xs, ys)[i].0, PadZip(xs, ys)[i].1)
  {
    Map(PadZip(xs, ys), (p: (Option<A>, Option<B>)) => fa(p.0, p.1))
  }

  /** Kotlin's `mapNotNull(::identity)`: the present values, in order. */
  function Somes<A>(xs: seq<Option<A>>): seq<A> {
    if xs == [] then []
    else if xs[0].Some? then [xs[0].value] + Somes(xs[1..])
    else Somes(xs[1..])
  }

  /** A list that is all present up to `k` and all absent after keeps exactly its first `k` values. */
  lemma {:induction false} SomesOfPrefix<A>(xs: seq<Option<A>>, k: nat)
    requires k <= |xs|
    requires forall i :: 0 <= i < k ==> xs[i].Some?
    requires forall i :: k <= i < |xs| ==> xs[i].None?
    ensures |Somes(xs)| == k
    ensures forall i :: 0 <= i < k ==> Somes(xs)[i] == xs[i].value
  {
    if xs != [] {
      if k > 0 {
        SomesOfPrefix(xs[1..], k - 1);
      } else {
        SomesOfPrefix(xs[1..], 0);
      }
    }
  }

  /**
   * `leftPadZip` with a function: the positions where `ys` has an element,
   * the left side padded with `None`.
   */
  function LeftPadZipWith<A, B, C>(xs: seq<A>, ys: seq<B>, fab: (Option<A>, B) -> C): (r: seq<C>)
    ensures |r| == |ys|
    ensures forall i :: 0 <= i < |ys| ==> r[i] == fab(At(xs, i), ys[i])
  {
    var padded := PadZipWith(xs, ys, (a: Option<A>, b: Option<B>) => if b.Some? then Some(fab(a, b.value)) else None);
    forall i | 0 <= i < |padded|
      ensures i < |ys| ==> padded[i] == Some(fab(At(xs, i), ys[i]))
      ensures |ys| <= i ==> padded[i].None?
    {
      PadZipAt(xs, ys, i);
    }
    SomesOfPrefix(padded, |ys|);
    Somes(padded)
  }

  function LeftPadZip<A, B>(xs: seq<A>, ys: seq<B>): (r: seq<(Option<A>, B)>)
    ensures |r| == |ys|
    ensures forall i :: 0 <= i < |ys| ==> r[i] == (At(xs, i), ys[i])
  {
    LeftPadZipWith(xs, ys, (a: Option<A>, b: B) => (a, b))
  }

  /** `rightPadZip` is `leftPadZip` with the lists exchanged and the function's arguments flipped. */
  function RightPadZipWith<A, B, C>(xs: seq<A>, ys: seq<B>, fa: (A, Option<B>) -> C): (r: seq<C>)
    ensures |r| == |xs|
    ensures forall i :: 0 <= i < |xs| ==> r[i] == fa(xs[i], At(ys, i))
  {
    LeftPadZipWith(ys, xs, (b: Option<B>, a: A) => fa(a, b))
  }

  function RightPadZip<A, B>(xs: seq<A>, ys: seq<B>): (r: seq<(A, Option<B>)>)
    ensures |r| == |xs|
    ensures forall i :: 0 <= i < |xs| ==> r[i] == (xs[i], At(ys, i))
  {
    RightPadZipWith(xs, ys, (a: A, b: Option<B>) => (a, b))
  }

  /** `xs.rightPadZip(ys)` is `ys.leftPadZip(xs)` with every pair swapped. */
  lemma RightPadZipIsSwappedLeftPadZip<A, B>(xs: seq<A>, ys: seq<B>)
    ensures RightPadZip(xs, ys) == Map(LeftPadZip(ys, xs), (p: (Option<B>, A)) => (p.1, p.0))
  {
  }

  /** `leftPadZip` keeps exactly the `padZip` entries whose right side is present. */
  lemma LeftPadZipFiltersPadZip<A, B>(xs: seq<A>, ys: seq<B>)
    ensures forall i :: 0 <= i < |ys| ==> PadZip(xs, ys)[i] == (LeftPadZip(xs, ys)[i].0, Some(LeftPadZip(xs, ys)[i].1))
    ensures forall i :: |ys| <= i < Max(|xs|, |ys|) ==> PadZip(xs, ys)[i].1.None?
  {
    forall i | 0 <= i < Max(|xs|, |ys|)
      ensures PadZip(xs, ys)[i] == (At(xs, i), At(ys, i))
    {
      PadZipAt(xs, ys, i);
    }
  }

  /** The documented `rightPadZip` results (the first function-taking example in the source's documentation shows a different one). */
  lemma RightPadZipExamples()
    ensures RightPadZip([1, 2], ["a"]) == [(1, Some("a")), (2, None)]
    ensures RightPadZip([1], ["a", "b"]) == [(1, Some("a"))]
    ensures RightPadZip([1, 2], ["a", "b"]) == [(1, Some("a")), (2, Some("b"))]
  {
  }

  // ---------------------------------------------------------------------
  // salign

  /** Aligns two lists of one type, merging `Both` positions with the Semigroup combine. */
  function Salign<A>(combine: (A, A) -> A, xs: seq<A>, ys: seq<A>): (r: seq<A>)
    ensures |r| == Max(|xs|, |ys|)
  {
    AlignWith(xs, ys, (ior: Ior<A, A>) => ior.Fold(a => a, a => a, combine))
  }

  lemma SalignAt<A>(combine: (A, A) -> A, xs: seq<A>, ys: seq<A>, i: nat)
    requires i < Max(|xs|, |ys|)
    ensures i < |xs| && i < |ys| ==> Salign(combine, xs, ys)[i] == combine(xs[i], ys[i])
    ensures |ys| <= i ==> Salign(combine, xs, ys)[i] == xs[i]
    ensures |xs| <= i ==> Salign(combine, xs, ys)[i] == ys[i]
  {
    AlignAt(xs, ys, i);
  }

  /** One position of the associativity of `salign`, given the one instance of associativity it needs. */
  lemma SalignAssociativeAt<A>(combine: (A, A) -> A, xs: seq<A>, ys: seq<A>, zs: seq<A>, i: nat)
    requires i < Max(Max(|xs|, |ys|), |zs|)
    requires i < |xs| && i < |ys| && i < |zs| ==>
               combine(combine(xs[i], ys[i]), zs[i]) == combine(xs[i], combine(ys[i], zs[i]))
    ensures Salign(combine, Salign(combine, xs, ys), zs)[i] == Salign(combine, xs, Salign(combine, ys, zs))[i]
  {
    var xy := Salign(combine, xs, ys);
    var yz := Salign(combine, ys, zs);
    SalignAt(combine, xy, zs, i);
    SalignAt(combine, xs, yz, i);
    if i < Max(|xs|, |ys|) {
      SalignAt(combine, xs, ys, i);
    }
    if i < Max(|ys|, |zs|) {
      SalignAt(combine, ys, zs, i);
    }
  }

  /** `salign` is associative whenever the combine is: lists under `salign` form a Semigroup. */
  lemma SalignAssociative<A(!new)>(combine: (A, A) -> A, xs: seq<A>, ys: seq<A>, zs: seq<A>)
    requires Associative(combine)
    ensures Salign(combine, Salign(combine, xs, ys), zs) == Salign(combine, xs, Salign(combine, ys, zs))
  {
    var left := Salign(combine, Salign(combine, xs, ys), zs);
    var right := Salign(combine, xs, Salign(combine, ys, zs));
    forall i | 0 <= i < |left|
      ensures left[i] == right[i]
    {
      if i < |xs| && i < |ys| && i < |zs| {
        assert combine(combine(xs[i], ys[i]), zs[i]) == combine(xs[i], combine(ys[i], zs[i]));
      }
      SalignAssociativeAt(combine, xs, ys, zs, i);
    }
  }

  // ---------------------------------------------------------------------
  // unalign

  /** One step of the left fold of `unalign`. */
  function UnalignStep<A, B>(acc: (seq<A>, seq<B>), x: Ior<A, B>): (seq<A>, seq<B>) {
    x.Fold(a => (acc.0 + [a], acc.1), b => (acc.0, acc.1 + [b]), (a, b) => (acc.0 + [a], acc.1 + [b]))
  }

  /** `fold(emptyList() to emptyList())`, written as the left fold it is. */
  function UnalignFrom<A, B>(acc: (seq<A>, seq<B>), xs: seq<Ior<A, B>>): (seq<A>, seq<B>)
    decreases xs
  {
    if xs == [] then acc else UnalignFrom(UnalignStep(acc, xs[0]), xs[1..])
  }

  /** What one Ior contributes to the left list. */
  function LeftSide<A, B>(x: Ior<A, B>): seq<A> {
    match x
    case Left(a) => [a]
    case Right(_) => []
    case Both(a, _) => [a]
  }

  /** What one Ior contributes to the right list. */
  function RightSide<A, B>(x: Ior<A, B>): seq<B> {
    match x
    case Left(_) => []
    case Right(b) => [b]
    case Both(_, b) => [b]
  }

  lemma UnalignStepAppends<A, B>(acc: (seq<A>, seq<B>), x: Ior<A, B>)
    ensures UnalignStep(acc, x) == (acc.0 + LeftSide(x), acc.1 + RightSide(x))
  {
    assert acc.0 + [] == acc.0 && acc.1 + [] == acc.1;
  }

  /** The left fold appends, after its seed, the left and the right values of every Ior in order. */
  lemma {:induction false} UnalignFromAppends<A, B>(acc: (seq<A>, seq<B>), xs: seq<Ior<A, B>>)
    ensures UnalignFrom(acc, xs) == (acc.0 + FlatMap(xs, LeftSide), acc.1 + FlatMap(xs, RightSide))
    decreases xs
  {
    if xs != [] {
      var s := UnalignStep(acc, xs[0]);
      UnalignStepAppends(acc, xs[0]);
      UnalignFromAppends(s, xs[1..]);
      var ls, rs := FlatMap(xs[1..], LeftSide), FlatMap(xs[1..], RightSide);
      assert FlatMap(xs, LeftSide) == LeftSide(xs[0]) + ls;
      assert FlatMap(xs, RightSide) == RightSide(xs[0]) + rs;
      assert acc.0 + (LeftSide(xs[0]) + ls) == (acc.0 + LeftSide(xs[0])) + ls;
      assert acc.1 + (RightSide(xs[0]) + rs) == (acc.1 + RightSide(xs[0])) + rs;
    } else {
      assert acc.0 + [] == acc.0 && acc.1 + [] == acc.1;
    }
  }

  /**
   * Splits Iors into the left values and the right values, each in order:
   * the same as flat-mapping every Ior to its left side and to its right side.
   */
  function Unalign<A, B>(xs: seq<Ior<A, B>>): (r: (seq<A>, seq<B>))
    ensures r.0 == FlatMap(xs, LeftSide) && r.1 == FlatMap(xs, RightSide)
  {
    var none: (seq<A>, seq<B>) := ([], []);
    UnalignFromAppends(none, xs);
    assert none.0 + FlatMap(xs, LeftSide) == FlatMap(xs, LeftSide);
    assert none.1 + FlatMap(xs, RightSide) == FlatMap(xs, RightSide);
    UnalignFrom(none, xs)
  }

  /**
   * `unalign(fa)`: maps with `fa`, then unaligns; the same as flat-mapping
   * every `c` to the left side, and to the right side, of `fa(c)`.
   */
  function UnalignWith<A, B, C>(cs: seq<C>, fa: C -> Ior<A, B>): (r: (seq<A>, seq<B>))
    ensures r.0 == FlatMap(cs, (c: C) => LeftSide(fa(c)))
    ensures r.1 == FlatMap(cs, (c: C) => RightSide(fa(c)))
  {
    FlatMapMap(cs, fa, LeftSide, (c: C) => LeftSide(fa(c)));
    FlatMapMap(cs, fa, RightSide, (c: C) => RightSide(fa(c)));
    Unalign(Map(cs, fa))
  }

  /** The documented example: every number made a Left lands in the left list. */
  lemma UnalignWithExample()
    ensures UnalignWith([1, 2, 3], (n: int) => Ior<int, int>.Left(n)) == ([1, 2, 3], [])
  {
    var fa := (n: int) => Ior<int, int>.Left(n);
    var l := (c: int) => LeftSide(fa(c));
    var r := (c: int) => RightSide(fa(c));
    var ns := [1, 2, 3];
    assert ns[1..] == [2, 3] && ns[1..][1..] == [3] && ns[1..][1..][1..] == [];
    assert fa(1) == Ior.Left(1) && fa(2) == Ior.Left(2) && fa(3) == Ior.Left(3);
    assert FlatMap(ns, l) == l(1) + l(2) + l(3) == [1] + [2] + [3];
    assert FlatMap(ns, r) == r(1) + r(2) + r(3) == [];
    assert UnalignWith(ns, fa) == (FlatMap(ns, l), FlatMap(ns, r));
    assert [1] + [2] + [3] == ns;
  }

  /** Unaligning `x` followed by `xs` puts `x`'s sides in front. */
  lemma UnalignCons<A, B>(x: Ior<A, B>, xs: seq<Ior<A, B>>)
    ensures Unalign([x] + xs) == (LeftSide(x) + Unalign(xs).0, RightSide(x) + Unalign(xs).1)
  {
    assert ([x] + xs)[1..] == xs;
  }

  lemma {:induction false} UnalignAllLeft<A, B>(ls: seq<A>)
    ensures Unalign(AllLeft<A, B>(ls)) == (ls, [])
  {
    if ls != [] {
      var m := AllLeft<A, B>(ls);
      assert m == [Ior.Left(ls[0])] + AllLeft<A, B>(ls[1..]);
      UnalignCons(Ior.Left(ls[0]), AllLeft<A, B>(ls[1..]));
      UnalignAllLeft<A, B>(ls[1..]);
      var nb: seq<B> := [];
      assert [ls[0]] + ls[1..] == ls && nb + nb == nb;
    }
  }

  lemma {:induction false} UnalignAllRight<A, B>(rs: seq<B>)
    ensures Unalign(AllRight<A, B>(rs)) == ([], rs)
  {
    if rs != [] {
      var m := AllRight<A, B>(rs);
      assert m == [Ior.Right(rs[0])] + AllRight<A, B>(rs[1..]);
      UnalignCons(Ior.Right(rs[0]), AllRight<A, B>(rs[1..]));
      UnalignAllRight<A, B>(rs[1..]);
      var na: seq<A> := [];
      assert [rs[0]] + rs[1..] == rs && na + na == na;
    }
  }

  /** `unalign` recovers both lists from their alignment. */
  lemma {:induction false} UnalignAlign<A, B>(ls: seq<A>, rs: seq<B>)
    ensures Unalign(Align(ls, rs)) == (ls, rs)
  {
    if ls == [] {
      UnalignAllRight<A, B>(rs);
    } else if rs == [] {
      UnalignAllLeft<A, B>(ls);
    } else {
      UnalignCons(Ior.Both(ls[0], rs[0]), Align(ls[1..], rs[1..]));
      UnalignAlign(ls[1..], rs[1..]);
      assert [ls[0]] + ls[1..] == ls;
      assert [rs[0]] + rs[1..] == rs;
    }
  }

  // ---------------------------------------------------------------------
  // crosswalk

  /** How `crosswalk` merges a new list `l` into the columns gathered so far. */
  function CrosswalkStep<B>(bs: seq<seq<B>>, l: seq<B>): (r: seq<seq<B>>)
    ensures |r| == Max(|l|, |bs|)
  {
    AlignWith(l, bs, (ior: Ior<B, seq<B>>) => ior.Fold(b => [b], col => col, (b, col) => [b] + col))
  }

  /** The left fold of `crosswalk`, from the columns `bs`. */
  function CrosswalkFrom<A, B>(bs: seq<seq<B>>, xs: seq<A>, f: A -> seq<B>): seq<seq<B>>
    decreases xs
  {
    if xs == [] then bs else CrosswalkFrom(CrosswalkStep(bs, f(xs[0])), xs[1..], f)
  }

  /** The longest length among `ls`. */
  function MaxLength<B>(ls: seq<seq<B>>): nat {
    if ls == [] then 0 else Max(|ls[0]|, MaxLength(ls[1..])) as nat
  }

  /**
   * Reference column: the `i`-th elements of the lists in `ls` that have one,
   * the last list's first.
   */
  function ColumnRev<B>(ls: seq<seq<B>>, i: nat): seq<B> {
    if ls == [] then [] else ColumnRev(ls[1..], i) + (if i < |ls[0]| then [ls[0][i]] else [])
  }

  /** One step of the fold puts `l[i]` in front of column `i`. */
  lemma CrosswalkStepAt<B>(bs: seq<seq<B>>, l: seq<B>, i: nat)
    requires i < Max(|l|, |bs|)
    ensures CrosswalkStep(bs, l)[i] == (if i < |l| then [l[i]] else []) + (if i < |bs| then bs[i] else [])
  {
    AlignAt(l, bs, i);
  }

  lemma {:induction false} CrosswalkFromLength<A, B>(bs: seq<seq<B>>, xs: seq<A>, f: A -> seq<B>)
    ensures |CrosswalkFrom(bs, xs, f)| == Max(|bs|, MaxLength(Map(xs, f)))
    decreases xs
  {
    if xs != [] {
      var ls := Map(xs, f);
      assert ls[1..] == Map(xs[1..], f);
      CrosswalkFromLength(CrosswalkStep(bs, f(xs[0])), xs[1..], f);
    }
  }

  lemma {:induction false} CrosswalkFromAt<A, B>(bs: seq<seq<B>>, xs: seq<A>, f: A -> seq<B>, i: nat)
    requires i < |CrosswalkFrom(bs, xs, f)|
    ensures CrosswalkFrom(bs, xs, f)[i] == ColumnRev(Map(xs, f), i) + (if i < |bs| then bs[i] else [])
    decreases xs
  {
    var ls := Map(xs, f);
    if xs != [] {
      var l := f(xs[0]);
      var step := CrosswalkStep(bs, l);
      assert ls[1..] == Map(xs[1..], f);
      assert ColumnRev(ls, i) == ColumnRev(ls[1..], i) + (if i < |l| then [l[i]] else []);
      CrosswalkFromAt(step, xs[1..], f, i);
      if i < |step| {
        CrosswalkStepAt(bs, l, i);
      }
    }
  }

  /** The fold from no columns at all holds exactly the reference columns. */
  lemma CrosswalkFromNothing<A, B>(xs: seq<A>, f: A -> seq<B>)
    ensures |CrosswalkFrom([], xs, f)| == MaxLength(Map(xs, f))
    ensures forall i :: 0 <= i < |CrosswalkFrom([], xs, f)| ==> CrosswalkFrom([], xs, f)[i] == ColumnRev(Map(xs, f), i)
  {
    CrosswalkFromLength([], xs, f);
    forall i | 0 <= i < |CrosswalkFrom([], xs, f)| ensures CrosswalkFrom([], xs, f)[i] == ColumnRev(Map(xs, f), i) {
      CrosswalkFromAt([], xs, f, i);
    }
  }

  /**
   * `crosswalk` transposes the lists `f(a)`: it has as many columns as the
   * longest `f(a)`, and column `i` holds the `i`-th element of every `f(a)`
   * that has one, most recently folded element first.
   */
  function Crosswalk<A, B>(xs: seq<A>, f: A -> seq<B>): (r: seq<seq<B>>)
    ensures |r| == MaxLength(Map(xs, f))
    ensures forall i :: 0 <= i < |r| ==> r[i] == ColumnRev(Map(xs, f), i)
  {
    CrosswalkFromNothing(xs, f);
    CrosswalkFrom([], xs, f)
  }

  /** Every `ls[k][i]` appears in reference column `i`, and that column exists. */
  lemma {:induction false} ColumnHasEveryElement<B>(ls: seq<seq<B>>, k: nat, i: nat)
    requires k < |ls| && i < |ls[k]|
    ensures ls[k][i] in ColumnRev(ls, i)
    ensures i < MaxLength(ls)
  {
    if k > 0 {
      ColumnHasEveryElement(ls[1..], k - 1, i);
    }
  }

  /** No element is dropped: `crosswalk` has a column `i` holding every `f(xs[k])[i]`. */
  lemma CrosswalkKeepsEveryElement<A, B>(xs: seq<A>, f: A -> seq<B>, k: nat, i: nat)
    requires k < |xs| && i < |f(xs[k])|
    ensures i < |Crosswalk(xs, f)|
    ensures f(xs[k])[i] in Crosswalk(xs, f)[i]
  {
    ColumnHasEveryElement(Map(xs, f), k, i);
  }
}
