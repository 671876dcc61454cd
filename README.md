# zipwith in Dafny

A model of the Rust crate `zipwith`: the lazy iterator adaptor `ZipWith`,
which wraps a left iterator, a right iterator and a binary `zipper`
function. Each pull takes one element `l` from the left side and, only if
there was one, one element `r` from the right side, and yields
`zipper(l, r)`; it yields `None` as soon as either side is exhausted. The
adaptor also combines the two sides' `(lower, Option<upper>)` size hints.

Files:

- `iterators.dfy` (module `Iterators`): `Option`, the `SizeHint` pair, the
  predicate `Sound` (a hint is a correct estimate of what is left), and
  `SeqIter`, a finite iterator over a sequence standing for the `Vec` and
  slice iterators the crate's tests wrap. `SeqIter` counts its pulls,
  so that "the right side is not pulled" can be stated.
- `zipwith.dfy` (module `ZipWithAdaptor`): the specification function
  `ZipWithSeq` (what collecting the adaptor yields), the pure size-hint rule
  `CombineHints`, the class `ZipWith` whose constructor is the free function
  `zip_with` and whose methods `Next`, `Hint` and `Collect` are
  `Iterator::next`, `Iterator::size_hint` and `collect()`, the method form
  `IntoZipWith`, and `ZipWithCollect`, which collects over two sequences.
- `tests.dfy` (module `ZipWithTests`): the crate's two test cases.

`ZipWith.Rest()` is the abstract state of the adaptor: the elements it has
still to yield, `ZipWithSeq` of what its two sides have left. `Next` is
specified both case by case on the two cursors and against `Rest()`, and
`Collect` proves that pulling until the first `None` yields exactly `Rest()`.

## Model

| member | source | states |
|---|---|---|
| `ZipWithAdaptor.ZipWithSeq` | src/lib.rs:47-49 | the collected result has length `min(m, n)` and its i-th element is `f(a[i], b[i])`; in particular it is empty when either input is |
| `ZipWithAdaptor.CombineHints` | src/lib.rs:96-108 | lower bound is the smaller of the two lower bounds; the upper bound is `None` exactly when neither side reports one, and otherwise the least of the reported upper bounds (both: `min(l, r)`; one: that one) |
| `ZipWithAdaptor.CombineHintsSound` | src/lib.rs:94-108 | if each side's hint correctly bounds what that side has left, the combined hint correctly bounds `min` of the two, the number of elements the adaptor yields |
| `ZipWithAdaptor.ZipWith.constructor` | src/lib.rs:50-56 | `zip_with` stores its three arguments and pulls nothing: both iterators are unchanged, and the adaptor will yield `ZipWithSeq` of their remaining elements |
| `ZipWithAdaptor.ZipWith.Next` | src/lib.rs:78-89 | left exhausted: `None`, and the right side is not touched (not even pulled); left yields but right exhausted: `None`, with exactly one left element consumed; both yield: `Some(zipper(l, r))`, each side advanced by one; in every case the result is the head of what was left to yield and the rest is what remains, so after a `None` the adaptor stays exhausted |
| `ZipWithAdaptor.ZipWith.Hint` | src/lib.rs:92-109 | the adaptor's hint is the combination of its two sides' hints and is a correct estimate of how many elements it has still to yield |
| `ZipWithAdaptor.ZipWith.Collect` | src/lib.rs:16 | pulling until the first `None` yields exactly the elements the adaptor had left, after which it is exhausted; the right side advances and is pulled once per element, and is pulled once more only when the left side outlasts it; the left side is pulled once more than the number of elements |
| `ZipWithAdaptor.IntoZipWith` | src/lib.rs:59-66 | the method form builds the same adaptor as `zip_with` on the same arguments, so it yields the same elements |
| `ZipWithAdaptor.ZipWithCollect` | src/lib.rs:47-56 | collecting `zip_with` over sequences `a` and `b` gives `min(|a|, |b|)` elements, the i-th being `f(a[i], b[i])` |
| `ZipWithTests.ZipWithMaxesFunc` | src/lib.rs:12-19 | `[0, 44, -12]` and `[4, 5, -8]` zipped with `max` collect to `[4, 44, -8]` |
| `ZipWithTests.ZipWithMaxesMeth` | src/lib.rs:21-28 | through the method form, `[1, 2, 9]` and `[4, 5, 6]` zipped with `max` collect to `[4, 5, 9]` |
| `Iterators.SeqIter.Next` | src/lib.rs:80-82 | the pull the adaptor performs on each side: the next element and a step forward, or `None` and no step; every call counts as a pull |
| `Iterators.SeqIter.Hint` | src/lib.rs:94-95 | a sequence iterator's own hint is exact, hence sound |

## Left out

- Rust trait plumbing: the `IntoIterator` conversions, the blanket
  `impl<T: Iterator> IntoZipWith for T` and the generic bounds are type-level;
  the method form is one Dafny method over the model's iterators.
- `#[derive(Clone)]` and `#[must_use]`: no behaviour.
- Panics or side effects inside the `zipper` closure: it is a pure Dafny
  function; the adaptor neither catches nor wraps failures.
- Infinite iterators, iterators that resume after `None`, and iterators whose
  own size hint is inexact: the wrapped iterators are finite sequences that
  stay exhausted and report exact hints. The size-hint rule itself is proved
  correct for arbitrary correct hints in `CombineHintsSound`.
- The adaptor does not itself guard against an inner iterator resuming after
  `None`; "once exhausted, stays exhausted" holds in the model because the
  modelled iterators stay exhausted, not because of the adaptor.
- Machine integers (`i8`, `&u8` elements in the tests, `usize` in size hints):
  elements are `int` or type parameters, hint bounds are `nat`; the adaptor
  does no arithmetic and taking a minimum cannot overflow.
