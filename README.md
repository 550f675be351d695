# Arrow's `Validated`, list combinators and `PSetter`, in Dafny

This project models three parts of the Arrow (formerly Kategory) functional
library for Kotlin and proves properties about them.

- **`Validated<E, A>`** (module `Validation`, `validated.dfy`). A value is
  either `Valid(a)` or `Invalid(e)`. `fold` is the one way to take a value
  apart. The combinators `ap`, `combine`, `combineK` and `findValid` collect
  errors with a caller-supplied Semigroup, which is modelled as a plain
  function `(E, E) -> E`. Proofs that need the Semigroup to be associative
  state this with `requires Associative(se)`.
- **List combinators of `Iterable.kt`.** Lists are `seq`s, and Kotlin's
  `A?` is `Option<A>`.
  - `Alignment` (`align.dfy`): the `Ior`-based alignment family.
  - `Traversal` (`traverse.dfy`): the `traverse*`/`sequence*` functions over
    `Either` and `Validated`.
  - `Reduction` (`reduce.dfy`): the two loop-based reducers, written as
    methods with `while` loops.
  - `Product` (`zip.dfy`): the nested-loop `zip`, written as a method, and
    `ap`.
  - `Lists` (`lists.dfy`): `separateEither`/`separateValidated`,
    `compareTo`, `interleave` and both `replicate`s.
- **`PSetter<S, T, A, B>`** (module `Optics`, `setter.dfy`). A setter is a
  datatype that holds its `modify` and `set` as function values. The module
  has `invoke`, `codiagonal`, `choice`, `compose`/`plus` and a list
  instance of `fromFunctor`. It proves that the setter laws hold for these
  setters and survive `choice` and `compose`.

`base.dfy` (module `Base`) holds the small `Option`, `Either`, `Ior` and
non-empty-list datatypes the three parts share. It also holds `identity`
(`Id`) and the list helpers `Map`, `FlatMap` and `At`.

Where the documentation and the code disagree, the model follows the code:

- **`rightPadZip`.** Its first documentation example shows
  `[1, 2].rightPadZip(["a"])` producing a pair `(null, "b")`. The code
  produces `[(1, "a"), (2, null)]`, which is what the second example shows.

Behaviour of the code worth knowing:

- **Error order in `traverseValidated`.** The fold passes the accumulated
  tail to `ap` as its function side. `ap` combines as
  `SE(functionError, valueError)`, so the errors of later elements end up
  on the left. `Traversal.AccumulationOrderExample` pins this down:
  `[Invalid e1, Invalid e2]` gives `Invalid(SE(e2, e1))`.
- **`replicate(n, MA)`.** It zips the list with `replicate(n - 1, MA)`
  using Kotlin's positional two-list `zip`. The recursive result has at
  most one element, so the whole result has at most one element: the first
  element of the list combined with itself `n` times. The model keeps this
  behaviour.
- **`interleave` at a null head.** It finds the end of the receiver with
  `split()`, which is `firstOrNull()`, so a receiver whose first element is
  null counts as empty. At a null head the remaining elements of the current
  receiver are dropped and only `other` is returned:
  `listOf<Int?>(null, 1).interleave(listOf(2))` is `[2]`. The model's lists
  have no null elements, so it never reaches this case.

`Either.kt` is not part of this model. `Either.ap` is taken to be
`flatMap { a -> ff.map { f -> f(a) } }`: the receiver's `Left` wins. With
that definition, `traverseEither` returns the first `Left` in input order.

## Model

| member | source | states |
|---|---|---|
| Validation.Fold | modules/core/arrow-core-data/src/main/kotlin/arrow/core/Validated.kt:587-591 | `fa` is applied to a Valid payload and `fe` to an Invalid one |
| Validation.IsValid | modules/core/arrow-core-data/src/main/kotlin/arrow/core/Validated.kt:593-594 | true exactly for Valid |
| Validation.IsInvalid | modules/core/arrow-core-data/src/main/kotlin/arrow/core/Validated.kt:595-596 | true exactly for Invalid |
| Validation.ExactlyOneCase | modules/core/arrow-core-data/src/main/kotlin/arrow/core/Validated.kt:593-596 | exactly one of `isValid`/`isInvalid` holds |
| Validation.Exist | modules/core/arrow-core-data/src/main/kotlin/arrow/core/Validated.kt:601 | true exactly when the value is Valid and its payload satisfies the predicate |
| Validation.ToEither | modules/core/arrow-core-data/src/main/kotlin/arrow/core/Validated.kt:606 | Invalid becomes Left and Valid becomes Right, payload kept |
| Validation.FromEither | modules/core/arrow-core-data/src/main/kotlin/arrow/core/Validated.kt:570 | Left becomes Invalid and Right becomes Valid, payload kept |
| Validation.EitherRoundTrip | modules/core/arrow-core-data/src/main/kotlin/arrow/core/Validated.kt:570-606 | `fromEither` and `toEither` are inverse in both directions |
| Validation.FromOption | modules/core/arrow-core-data/src/main/kotlin/arrow/core/Validated.kt:576-580 | Some(a) gives Valid(a); None gives Invalid(ifNone()) |
| Validation.ToOption | modules/core/arrow-core-data/src/main/kotlin/arrow/core/Validated.kt:611 | Some exactly for Valid, holding the payload |
| Validation.OptionRoundTrip | modules/core/arrow-core-data/src/main/kotlin/arrow/core/Validated.kt:576-611 | `fromOption(toOption(v))` gives back a Valid value; an Invalid one becomes Invalid(ifNone()) |
| Validation.ToList | modules/core/arrow-core-data/src/main/kotlin/arrow/core/Validated.kt:617 | at most one element; exactly `[a]` for Valid(a), empty for Invalid |
| Validation.ToIor | modules/core/arrow-core-data/src/main/kotlin/arrow/core/Validated.kt:758-759 | never Both; Invalid becomes Left and Valid becomes Right, payload kept |
| Validation.InvalidNel | modules/core/arrow-core-data/src/main/kotlin/arrow/core/Validated.kt:558 | Invalid holding the one-element non-empty list `[e]` |
| Validation.ValidNel | modules/core/arrow-core-data/src/main/kotlin/arrow/core/Validated.kt:560 | Valid holding `a` |
| Validation.ToValidatedNel | modules/core/arrow-core-data/src/main/kotlin/arrow/core/Validated.kt:620-624 | the case is kept; Invalid(e) becomes Invalid(Nel(e, [])) and a Valid payload is kept |
| Validation.WithEither | modules/core/arrow-core-data/src/main/kotlin/arrow/core/Validated.kt:630 | converting the result to Either gives `f` of the value converted to Either |
| Validation.WithEitherIdentity | modules/core/arrow-core-data/src/main/kotlin/arrow/core/Validated.kt:630 | `withEither` with the identity changes nothing |
| Validation.Bimap | modules/core/arrow-core-data/src/main/kotlin/arrow/core/Validated.kt:636 | the case never changes; the matching function is applied to the payload |
| Validation.Map | modules/core/arrow-core-data/src/main/kotlin/arrow/core/Validated.kt:641 | an Invalid value is returned unchanged; a Valid payload is mapped |
| Validation.LeftMap | modules/core/arrow-core-data/src/main/kotlin/arrow/core/Validated.kt:647 | a Valid value is returned unchanged; an Invalid payload is mapped |
| Validation.MapLaws | modules/core/arrow-core-data/src/main/kotlin/arrow/core/Validated.kt:636-647 | functor identity and composition laws for `map`; `bimap` is `leftMap` then `map` |
| Validation.FoldLeft | modules/core/arrow-core-data/src/main/kotlin/arrow/core/Validated.kt:653 | the seed for Invalid; `f(seed, a)` for Valid(a) |
| Validation.Swap | modules/core/arrow-core-data/src/main/kotlin/arrow/core/Validated.kt:661 | the two cases are exchanged together with their payloads |
| Validation.SwapInvolution | modules/core/arrow-core-data/src/main/kotlin/arrow/core/Validated.kt:661 | `swap(swap(v)) == v` |
| Validation.GetOrElse | modules/core/arrow-core-data/src/main/kotlin/arrow/core/Validated.kt:667-668 | the Valid payload, otherwise `default()` |
| Validation.OrNull | modules/core/arrow-core-data/src/main/kotlin/arrow/core/Validated.kt:673-674 | Some(payload) exactly for Valid, otherwise None (null) |
| Validation.ValueOr | modules/core/arrow-core-data/src/main/kotlin/arrow/core/Validated.kt:679-680 | the Valid payload, otherwise `f(e)` |
| Validation.FindValid | modules/core/arrow-core-data/src/main/kotlin/arrow/core/Validated.kt:686-696 | a Valid receiver is returned; otherwise a Valid `that()`; two Invalids give Invalid(SE(e, that's e)) |
| Validation.FindValidIgnoresAlternative | modules/core/arrow-core-data/src/main/kotlin/arrow/core/Validated.kt:686-696 | with a Valid receiver the result does not depend on `that` |
| Validation.OrElse | modules/core/arrow-core-data/src/main/kotlin/arrow/core/Validated.kt:703-707 | a Valid receiver is returned; an Invalid one is replaced by `default()`, dropping its error |
| Validation.HandleLeftWith | modules/core/arrow-core-data/src/main/kotlin/arrow/core/Validated.kt:719-720 | a Valid receiver is returned; Invalid(e) becomes `f(e)` |
| Validation.OrElseIsHandleLeftWith | modules/core/arrow-core-data/src/main/kotlin/arrow/core/Validated.kt:703-720 | `orElse(d)` equals `handleLeftWith` with a handler that ignores the error |
| Validation.Ap | modules/core/arrow-core-data/src/main/kotlin/arrow/core/Validated.kt:713-717 | both Valid gives Valid(f(a)); exactly one Invalid operand is returned; two Invalids give Invalid(SE(functionError, valueError)) |
| Validation.ApValidSides | modules/core/arrow-core-data/src/main/kotlin/arrow/core/Validated.kt:713-717 | `ap` with a Valid function is `map`; `ap` on a Valid value maps application over the function side |
| Validation.ApComposition | modules/core/arrow-core-data/src/main/kotlin/arrow/core/Validated.kt:713-717 | with an associative Semigroup, `ap` satisfies the applicative composition law, error order included |
| Validation.TraverseList | modules/core/arrow-core-data/src/main/kotlin/arrow/core/Validated.kt:722-724 | for the list applicative: Invalid gives `[Invalid(e)]`; Valid(a) gives each element of `f(a)` wrapped in Valid, in order |
| Validation.SequenceList | modules/core/arrow-core-data/src/main/kotlin/arrow/core/Validated.kt:726-727 | `sequence` for lists: Invalid gives `[Invalid(e)]`; Valid(list) gives the list's elements, each wrapped in Valid |
| Validation.Combine | modules/core/arrow-core-data/src/main/kotlin/arrow/core/Validated.kt:729-741 | two Valids give Valid(SA(a, b)); two Invalids give Invalid(SE(e, e')); otherwise the Invalid operand is returned |
| Validation.CombineAssociative | modules/core/arrow-core-data/src/main/kotlin/arrow/core/Validated.kt:729-741 | `combine` is associative when both Semigroups are |
| Validation.CombineK | modules/core/arrow-core-data/src/main/kotlin/arrow/core/Validated.kt:743-753 | a Valid receiver is returned; an Invalid receiver gives a Valid `y`, or Invalid(SE(x.e, y.e)) |
| Validation.FindValidIsCombineK | modules/core/arrow-core-data/src/main/kotlin/arrow/core/Validated.kt:686-753 | `findValid` with an alternative yielding `y` is `combineK(y)` |
| Validation.CombineKAssociative | modules/core/arrow-core-data/src/main/kotlin/arrow/core/Validated.kt:743-753 | `combineK` is associative when the error Semigroup is |
| Validation.ApExamples | modules/core/arrow-core-data/src/main/kotlin/arrow/core/Validated.kt:713-717 | the four `ap` cases on integers with `+`, e.g. Invalid(10) ap Invalid(5) is Invalid(15) |
| Validation.FindValidExamples | modules/core/arrow-core-data/src/main/kotlin/arrow/core/Validated.kt:686-696 | Invalid(10) findValid Valid(5) is Valid(5); with Invalid(5) it is Invalid(15) |
| Alignment.Align | arrow-libs/core/arrow-core-data/src/main/kotlin/arrow/core/Iterable.kt:433-445 | the result is as long as the longer list |
| Alignment.AlignAt | arrow-libs/core/arrow-core-data/src/main/kotlin/arrow/core/Iterable.kt:437-445 | Both(l[i], r[i]) while both lists last; after that Left (left list longer) or Right (right list longer) |
| Alignment.AlignWith | arrow-libs/core/arrow-core-data/src/main/kotlin/arrow/core/Iterable.kt:415-416 | as long as the longer list; position `i` is `fa` of the aligned Ior at `i` |
| Alignment.AlignExamples | arrow-libs/core/arrow-core-data/src/main/kotlin/arrow/core/Iterable.kt:433-445 | `[1, 2]` aligned with `["a"]`, and `[1]` with `["a", "b"]` |
| Alignment.PadZip | arrow-libs/core/arrow-core-data/src/main/kotlin/arrow/core/Iterable.kt:246-253 | as long as the longer list |
| Alignment.PadZipAt | arrow-libs/core/arrow-core-data/src/main/kotlin/arrow/core/Iterable.kt:246-253 | position `i` pairs what each list has at `i`, with None (null) past a list's end |
| Alignment.PadZipExamples | arrow-libs/core/arrow-core-data/src/main/kotlin/arrow/core/Iterable.kt:234-236 | the three documented `padZip` results |
| Alignment.PadZipWith | arrow-libs/core/arrow-core-data/src/main/kotlin/arrow/core/Iterable.kt:276-277 | `fa` applied to both sides of every `padZip` pair, in order |
| Alignment.LeftPadZipWith | arrow-libs/core/arrow-core-data/src/main/kotlin/arrow/core/Iterable.kt:300-301 | as long as `other`; position `i` is `fab(this[i] or null, other[i])` |
| Alignment.LeftPadZip | arrow-libs/core/arrow-core-data/src/main/kotlin/arrow/core/Iterable.kt:324-325 | as long as `other`; position `i` pairs `this[i]` (or null) with `other[i]` |
| Alignment.RightPadZipWith | arrow-libs/core/arrow-core-data/src/main/kotlin/arrow/core/Iterable.kt:348-349 | as long as the receiver; position `i` is `fa(this[i], other[i] or null)` |
| Alignment.RightPadZip | arrow-libs/core/arrow-core-data/src/main/kotlin/arrow/core/Iterable.kt:372-373 | as long as the receiver; position `i` pairs `this[i]` with `other[i]` (or null) |
| Alignment.RightPadZipIsSwappedLeftPadZip | arrow-libs/core/arrow-core-data/src/main/kotlin/arrow/core/Iterable.kt:348-373 | `xs.rightPadZip(ys)` is `ys.leftPadZip(xs)` with every pair swapped |
| Alignment.LeftPadZipFiltersPadZip | arrow-libs/core/arrow-core-data/src/main/kotlin/arrow/core/Iterable.kt:300-325 | `leftPadZip` holds exactly the `padZip` entries whose right side is present |
| Alignment.RightPadZipExamples | arrow-libs/core/arrow-core-data/src/main/kotlin/arrow/core/Iterable.kt:360-362 | the three documented `rightPadZip` results that agree with the code |
| Alignment.Salign | arrow-libs/core/arrow-core-data/src/main/kotlin/arrow/core/Iterable.kt:450-459 | as long as the longer list |
| Alignment.SalignAt | arrow-libs/core/arrow-core-data/src/main/kotlin/arrow/core/Iterable.kt:450-459 | positions present in both lists are combined; elsewhere the longer list's element is kept |
| Alignment.SalignAssociative | arrow-libs/core/arrow-core-data/src/main/kotlin/arrow/core/Iterable.kt:450-459 | `salign` is associative when the Semigroup is |
| Alignment.UnalignStepAppends | arrow-libs/core/arrow-core-data/src/main/kotlin/arrow/core/Iterable.kt:520-525 | one fold step appends a Left to the first list, a Right to the second, a Both to both |
| Alignment.UnalignFromAppends | arrow-libs/core/arrow-core-data/src/main/kotlin/arrow/core/Iterable.kt:519-526 | the fold appends, after its seed, the left values and the right values of every Ior, in input order |
| Alignment.Unalign | arrow-libs/core/arrow-core-data/src/main/kotlin/arrow/core/Iterable.kt:519-526 | the first list is every Ior's left value and the second every right value, in input order: the same as flat-mapping each Ior to its left side and to its right side |
| Alignment.UnalignWith | arrow-libs/core/arrow-core-data/src/main/kotlin/arrow/core/Iterable.kt:545-546 | the first list flat-maps every `c` to the left side of `fa(c)`, the second to its right side |
| Alignment.UnalignWithExample | arrow-libs/core/arrow-core-data/src/main/kotlin/arrow/core/Iterable.kt:536-540 | `[1, 2, 3].unalign { it.leftIor() }` is `([1, 2, 3], [])` |
| Alignment.UnalignCons | arrow-libs/core/arrow-core-data/src/main/kotlin/arrow/core/Iterable.kt:519-526 | unaligning `x` followed by `xs` puts `x`'s sides in front of the rest's |
| Alignment.UnalignAllLeft | arrow-libs/core/arrow-core-data/src/main/kotlin/arrow/core/Iterable.kt:519-526 | unaligning only Lefts gives back their values and an empty second list |
| Alignment.UnalignAllRight | arrow-libs/core/arrow-core-data/src/main/kotlin/arrow/core/Iterable.kt:519-526 | unaligning only Rights gives an empty first list and back their values |
| Alignment.UnalignAlign | arrow-libs/core/arrow-core-data/src/main/kotlin/arrow/core/Iterable.kt:519-526 | `unalign(align(l, r)) == (l, r)` |
| Alignment.CrosswalkStep | arrow-libs/core/arrow-core-data/src/main/kotlin/arrow/core/Iterable.kt:774-781 | one fold step is as long as the longer of the new list and the columns |
| Alignment.CrosswalkStepAt | arrow-libs/core/arrow-core-data/src/main/kotlin/arrow/core/Iterable.kt:774-781 | one fold step puts the new list's `i`-th element in front of column `i` |
| Alignment.CrosswalkFromLength | arrow-libs/core/arrow-core-data/src/main/kotlin/arrow/core/Iterable.kt:773-782 | the fold's result is as long as the longest of its seed and every `f(a)` |
| Alignment.CrosswalkFromAt | arrow-libs/core/arrow-core-data/src/main/kotlin/arrow/core/Iterable.kt:773-782 | column `i` holds the `i`-th elements of the `f(a)`, most recently folded first, then the seed's column |
| Alignment.CrosswalkFromNothing | arrow-libs/core/arrow-core-data/src/main/kotlin/arrow/core/Iterable.kt:773-782 | the fold from no columns has as many columns as the longest `f(a)`, each the reference column |
| Alignment.Crosswalk | arrow-libs/core/arrow-core-data/src/main/kotlin/arrow/core/Iterable.kt:773-782 | `crosswalk` has as many columns as the longest `f(a)`; column `i` holds the `i`-th element of every `f(a)` that has one, last input first |
| Alignment.CrosswalkKeepsEveryElement | arrow-libs/core/arrow-core-data/src/main/kotlin/arrow/core/Iterable.kt:773-782 | no element is dropped: `crosswalk` has a column `i` for every `f(xs[k])` with an `i`-th element, and that element is in it |
| Lists.SidesPartition | arrow-libs/core/arrow-core-data/src/main/kotlin/arrow/core/Iterable.kt:654-658 | the Lefts and the Rights together are as long as the input; every Left and Right value of the input is on its side, and every value on a side comes from an input of that case |
| Lists.SeparateEither | arrow-libs/core/arrow-core-data/src/main/kotlin/arrow/core/Iterable.kt:654-658 | the two sides together are as long as the input; every Left value of the input is in the first list and every Right value in the second, and each list holds only such values |
| Lists.SeparateEitherAppend | arrow-libs/core/arrow-core-data/src/main/kotlin/arrow/core/Iterable.kt:654-658 | separating a concatenation concatenates both sides, so input order is kept |
| Lists.SeparateValidated | arrow-libs/core/arrow-core-data/src/main/kotlin/arrow/core/Iterable.kt:666-670 | `separateValidated` is `separateEither` after `toEither`: errors on the left, values on the right, each in input order |
| Lists.AlignedVerdictIsLex | arrow-libs/core/arrow-core-data/src/main/kotlin/arrow/core/Iterable.kt:816-823 | folding the aligned element comparisons from 0, keeping the first non-zero, gives the lexicographic order |
| Lists.CompareTo | arrow-libs/core/arrow-core-data/src/main/kotlin/arrow/core/Iterable.kt:816-823 | `compareTo` is the lexicographic order: the first position where the element comparison is non-zero decides, and when there is none a proper prefix is smaller |
| Lists.CompareToReflexive | arrow-libs/core/arrow-core-data/src/main/kotlin/arrow/core/Iterable.kt:816-823 | a list compares equal to itself when every element does |
| Lists.CompareToAntisymmetric | arrow-libs/core/arrow-core-data/src/main/kotlin/arrow/core/Iterable.kt:816-823 | swapping the operands flips the sign when the element comparison does |
| Lists.CompareToExamples | arrow-libs/core/arrow-core-data/src/main/kotlin/arrow/core/Iterable.kt:816-823 | `[1, 2] < [1, 3]`, `[1, 2] > [1]`, `[2] > [1, 5]` |
| Lists.Interleave | arrow-libs/core/arrow-core-data/src/main/kotlin/arrow/core/Iterable.kt:591-594 | the result is as long as both lists together |
| Lists.InterleavePermutation | arrow-libs/core/arrow-core-data/src/main/kotlin/arrow/core/Iterable.kt:591-594 | the result is a permutation of the two lists together: nothing lost, nothing invented, for lists without null elements |
| Lists.InterleaveAt | arrow-libs/core/arrow-core-data/src/main/kotlin/arrow/core/Iterable.kt:591-594 | while both lists last, even positions come from the receiver and odd ones from `other` |
| Lists.InterleaveRest | arrow-libs/core/arrow-core-data/src/main/kotlin/arrow/core/Iterable.kt:591-594 | after the alternating part, the rest of the longer list follows unchanged |
| Lists.Replicate | arrow-libs/core/arrow-core-data/src/main/kotlin/arrow/core/Iterable.kt:808-810 | `n` copies of the list, none when `n <= 0` |
| Lists.ReplicateCombine | arrow-libs/core/arrow-core-data/src/main/kotlin/arrow/core/Iterable.kt:812-814 | `[empty]` when `n <= 0`; otherwise empty for an empty list, else only the first element combined `n` times |
| Traversal.TraverseEither | arrow-libs/core/arrow-core-data/src/main/kotlin/arrow/core/Iterable.kt:125-128 | Right exactly when every `f(a)` is Right, then holding their values in input order; otherwise the first Left |
| Traversal.FlatTraverseEither | arrow-libs/core/arrow-core-data/src/main/kotlin/arrow/core/Iterable.kt:130-133 | `traverseEither` with the inner lists concatenated in input order |
| Traversal.TraverseEitherDiscard | arrow-libs/core/arrow-core-data/src/main/kotlin/arrow/core/Iterable.kt:135-140 | the outcome of `traverseEither` with the values replaced by Unit |
| Traversal.SequenceEither | arrow-libs/core/arrow-core-data/src/main/kotlin/arrow/core/Iterable.kt:142-143 | Right exactly when every element is Right, then holding their values in order; otherwise the first Left |
| Traversal.FlatSequenceEither | arrow-libs/core/arrow-core-data/src/main/kotlin/arrow/core/Iterable.kt:145-146 | `sequenceEither` with the inner lists concatenated |
| Traversal.SequenceEitherDiscard | arrow-libs/core/arrow-core-data/src/main/kotlin/arrow/core/Iterable.kt:148-149 | the outcome of `sequenceEither` with the values replaced by Unit |
| Traversal.TraverseEitherIsSequenceOfMap | arrow-libs/core/arrow-core-data/src/main/kotlin/arrow/core/Iterable.kt:125-143 | traversing with `f` is sequencing the list mapped by `f` |
| Traversal.SequenceEitherOfRights | arrow-libs/core/arrow-core-data/src/main/kotlin/arrow/core/Iterable.kt:142-143 | sequencing a list of Rights gives Right of the list |
| Traversal.TraverseValidated | arrow-libs/core/arrow-core-data/src/main/kotlin/arrow/core/Iterable.kt:151-154 | Valid exactly when every `f(a)` is Valid, then holding their values in order; otherwise Invalid, combining every error with later ones on the left |
| Traversal.FlatTraverseValidated | arrow-libs/core/arrow-core-data/src/main/kotlin/arrow/core/Iterable.kt:156-159 | `traverseValidated` with the inner lists concatenated in input order |
| Traversal.TraverseValidatedDiscard | arrow-libs/core/arrow-core-data/src/main/kotlin/arrow/core/Iterable.kt:161-164 | the errors of `traverseValidated`, accumulated the same way, with the values replaced by Unit |
| Traversal.SequenceValidated | arrow-libs/core/arrow-core-data/src/main/kotlin/arrow/core/Iterable.kt:166-167 | Valid exactly when every element is Valid; otherwise Invalid, combining the separated errors |
| Traversal.FlatSequenceValidated | arrow-libs/core/arrow-core-data/src/main/kotlin/arrow/core/Iterable.kt:169-170 | `sequenceValidated` with the inner lists concatenated |
| Traversal.SequenceValidatedDiscard | arrow-libs/core/arrow-core-data/src/main/kotlin/arrow/core/Iterable.kt:172-173 | the outcome of `sequenceValidated` with the values replaced by Unit |
| Traversal.TraverseValidatedBySeparation | arrow-libs/core/arrow-core-data/src/main/kotlin/arrow/core/Iterable.kt:151-154 | the result follows from separating the mapped list: Valid of the values when there are no errors, else the accumulated errors |
| Traversal.ErrorsAreSeparated | arrow-libs/core/arrow-core-data/src/main/kotlin/arrow/core/Iterable.kt:666-670 | the errors `traverseValidated` accumulates are, in order, the ones `separateValidated` puts on its left |
| Traversal.TraverseValidatedIsSequenceOfMap | arrow-libs/core/arrow-core-data/src/main/kotlin/arrow/core/Iterable.kt:151-167 | traversing with `f` is sequencing the list mapped by `f` |
| Traversal.SequenceValidatedOfValids | arrow-libs/core/arrow-core-data/src/main/kotlin/arrow/core/Iterable.kt:166-167 | sequencing a list of Valids gives Valid of the list |
| Traversal.AccumulationOrderExample | arrow-libs/core/arrow-core-data/src/main/kotlin/arrow/core/Iterable.kt:151-154 | `[Invalid e1, Invalid e2]` gives `Invalid(SE(e2, e1))` |
| Reduction.FoldLeftCons | arrow-libs/core/arrow-core-data/src/main/kotlin/arrow/core/Iterable.kt:190-198 | the left fold folds the first element in first |
| Reduction.FoldRightIsFoldLeftOfReverse | arrow-libs/core/arrow-core-data/src/main/kotlin/arrow/core/Iterable.kt:116-120 | a right fold is a left fold, with the arguments flipped, over the reversed list |
| Reduction.FoldLeftShift | arrow-libs/core/arrow-core-data/src/main/kotlin/arrow/core/Iterable.kt:190-198 | with an associative operation, a combined seed can be moved out of the fold |
| Reduction.ReduceDirectionsAgree | arrow-libs/core/arrow-core-data/src/main/kotlin/arrow/core/Iterable.kt:190-224 | with an associative operation and `initial` the identity, reducing from either end gives the same result |
| Reduction.ReduceOrNull | arrow-libs/core/arrow-core-data/src/main/kotlin/arrow/core/Iterable.kt:190-198 | null exactly for the empty list; otherwise the left fold of the rest from `initial(first)` |
| Reduction.ReduceRightNull | arrow-libs/core/arrow-core-data/src/main/kotlin/arrow/core/Iterable.kt:213-224 | null exactly for the empty list; otherwise the right fold of the rest from `initial(last)` |
| Product.Product3Length | arrow-libs/core/arrow-core-data/src/main/kotlin/arrow/core/Iterable.kt:9-14 | there is one result for every combination: `|bs| * |cs| * |ds|` |
| Product.Product3At | arrow-libs/core/arrow-core-data/src/main/kotlin/arrow/core/Iterable.kt:90-114 | the combination `(bs[i], cs[j], ds[k])` is at index `(i * |cs| + j) * |ds| + k`: the receiver varies slowest |
| Product.Zip | arrow-libs/core/arrow-core-data/src/main/kotlin/arrow/core/Iterable.kt:79-114 | the nested loops leave in the buffer exactly the cartesian product, in loop order |
| Product.Ap | arrow-libs/core/arrow-core-data/src/main/kotlin/arrow/core/Iterable.kt:122-123 | `ap` has `|xs| * |ff|` results |
| Product.ApAt | arrow-libs/core/arrow-core-data/src/main/kotlin/arrow/core/Iterable.kt:122-123 | `ff[j](xs[i])` is at index `i * |ff| + j` of `ap`'s result |
| Optics.Invoke | kategory-optics/src/main/kotlin/kategory/optics/Setter.kt:39-43 | the setter's `modify` is the given function, and `set(b)` is `modify` with the constant `b` |
| Optics.Codiagonal | kategory-optics/src/main/kotlin/kategory/optics/Setter.kt:34 | `set(b)` replaces the value on whichever side is present by `b` and keeps the side |
| Optics.CodiagonalModify | kategory-optics/src/main/kotlin/kategory/optics/Setter.kt:34 | `codiagonal().modify(f)` applies `f` to whichever side is present and keeps that side |
| Optics.CodiagonalLawful | kategory-optics/src/main/kotlin/kategory/optics/Setter.kt:34 | `codiagonal` satisfies the set, identity, congruence and composition laws |
| Optics.Choice | kategory-optics/src/main/kotlin/kategory/optics/Setter.kt:56-58 | `set(b)` on Left(s) is Left of this setter modifying `s` with the constant `b`; on Right(u) it is Right of `other` doing so |
| Optics.ChoiceModify | kategory-optics/src/main/kotlin/kategory/optics/Setter.kt:56-58 | Left(s) becomes Left(this.modify(f)(s)) and Right(u) becomes Right(other.modify(f)(u)) |
| Optics.ChoicePreservesLaws | kategory-optics/src/main/kotlin/kategory/optics/Setter.kt:56-58 | the choice of two lawful setters is lawful |
| Optics.Compose | kategory-optics/src/main/kotlin/kategory/optics/Setter.kt:63-65 | `set(d)` modifies through both setters with the constant `d` |
| Optics.ComposeModify | kategory-optics/src/main/kotlin/kategory/optics/Setter.kt:63-65 | `(p compose o).modify(f) == p.modify(o.modify(f))`; its `set(d)` modifies through both with the constant `d` |
| Optics.Plus | kategory-optics/src/main/kotlin/kategory/optics/Setter.kt:90 | `plus` is `compose` |
| Optics.ComposeAssociative | kategory-optics/src/main/kotlin/kategory/optics/Setter.kt:63-65 | both groupings of three composed setters modify and set alike |
| Optics.ComposeKeepsIdentity | kategory-optics/src/main/kotlin/kategory/optics/Setter.kt:63-65 | composing setters that keep the identity keeps the identity |
| Optics.ComposeCongruent | kategory-optics/src/main/kotlin/kategory/optics/Setter.kt:63-65 | composing congruent setters gives a congruent setter |
| Optics.ComposeComposes | kategory-optics/src/main/kotlin/kategory/optics/Setter.kt:63-65 | composing setters that fuse two modifications gives one that fuses them |
| Optics.ComposePreservesLaws | kategory-optics/src/main/kotlin/kategory/optics/Setter.kt:63-65 | the composition of two lawful setters is lawful |
| Optics.FromListFunctor | kategory-optics/src/main/kotlin/kategory/optics/Setter.kt:48-50 | `set(b)` keeps the list's length and makes every element `b` |
| Optics.FromListFunctorLawful | kategory-optics/src/main/kotlin/kategory/optics/Setter.kt:48-50 | `fromFunctor` for lists satisfies the set, identity, congruence and composition laws |

## Left out

- `tailRecMIterable` and `go` (Iterable.kt:376-396) are left out: nothing guarantees that they terminate.
- The `Eval`-based lazy folds are left out because `Eval` is not part of this model. These are `Validated.foldRight` (Validated.kt:655-659), `List.foldRight` with `Eval` (Iterable.kt:181-188) and `reduceRightEvalOrNull` (Iterable.kt:200-211).
- `fromTry` (Validated.kt:565) is left out because `Try` is not part of this model.
- `PSetter.id` and the `compose`/`plus` overloads for Optional, Prism, Lens and Iso (Setter.kt:32, 70-98) are left out. They need types that are not part of this model.
- `Optics.FromListFunctorLawful`: `fromFunctor` is modelled only for the list functor. The higher-kinded `Functor<F>` is not expressible here.
- `Validation.TraverseList`: `Validated.traverse`/`sequence` over an arbitrary `Applicative<G>` are modelled only for the list applicative, for the same reason.
- `Product.Zip`: only the three-list `zip` is modelled. It passes the one-element `unit` list for the other seven loops, each of which therefore runs once. The overloads for four to nine lists differ only in how many `unit`s they pass and are not written out.
- `crosswalkMap` and `crosswalkNull` (Iterable.kt:784-802) are left out: they need Kotlin maps and nullable folds, which are not part of this model. The same goes for the other helpers of `Iterable.kt` that are not listed above (`unzip`, `unweave`, `ifThen`, `selectM`, `fproduct` and so on).
- The extension constructors `valid()`, `invalid()`, `validNel()` and `invalidNel()` (Validated.kt:761-771) are left out. They only wrap the constructors that are modelled.
- `Either.kt`, `Ior.kt` and `NonEmptyList.kt` are not part of this model. `Either`, `Ior` and the non-empty list are small datatypes in `Base`. `Either.ap` is taken to let the receiver's Left win.
- `Alignment.LeftPadZipWith`: list elements are never null here. Kotlin's `mapNotNull` would also drop a position whose function result is null, or a `leftPadZip` position whose own element is null; the model does not capture this.
- `Validation.OrNull`: a Valid payload that is itself null is not modelled. Kotlin would return null for it too.
- `Lists.Interleave`: list elements are never null here. In Kotlin a null element at the head of the current receiver ends that receiver early and drops its remaining elements (Iterable.kt:568-571, 591-594); the model does not capture this.
- `Lists.InterleavePermutation`: the permutation is proved only for lists without null elements, for the same reason; with a null head Kotlin loses elements.
- `Reduction.ReduceOrNull`: the accumulated values are never null here, so None means exactly the empty list. With a nullable `B`, Kotlin also returns null for a non-empty list whose fold yields null (Iterable.kt:190-198).
- `Reduction.ReduceRightNull`: the same convention; Kotlin also returns null for a non-empty list whose right fold yields null (Iterable.kt:213-224).
- `Lists.Replicate`: `n` is an unbounded integer here, not Kotlin's 32-bit `Int`.
- `Lists.CompareTo` is unbounded in the same way. The element order is any function `(A, A) -> int`, and the lemmas state which of its properties they need.
- Laziness and iterators are not modelled. `Iterable`s are finite sequences, and `() -> X` arguments are plain function values.
- `Optics.ComposePreservesLaws`, `Optics.ChoicePreservesLaws`: the setter laws are stated pointwise, because Dafny has no function extensionality. The congruence law is assumed of the input setters rather than derived.
