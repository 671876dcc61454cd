/** The iterator protocol the adaptor is written against: `Option` for the
    result of a pull, the `(lower, Option<upper>)` size hint, and a finite
    iterator over a sequence that stands for the `Vec` and slice iterators
    the adaptor wraps. */
module Iterators {

  /** The result of one pull: `Some` element, or `None` once exhausted. */
  datatype Option<+T> = None | Some(value: T)

  /** A size hint as `Iterator::size_hint` reports it: a lower bound on the
      number of elements still to come and, if known, an upper bound. */
  datatype SizeHint = SizeHint(lower: nat, upper: Option<nat>)

  /** `h` is a correct estimate for an iterator that has `n` elements left. */
  predicate Sound(h: SizeHint, n: nat) {
    h.lower <= n && (h.upper.Some? ==> n <= h.upper.value)
  }

  /** A finite iterator over the elements of `items`, as `Vec::into_iter` or
      `slice::iter` gives one. Once it has returned `None` it keeps doing so.
      `pulls` counts every call of `Next`, the ones that find it exhausted
      included, so that a caller can observe whether it was pulled at all. */
  class SeqIter<T> {
    const items: seq<T>
    var pos: nat
    var pulls: nat

    ghost predicate Valid()
      reads this
    {
      pos <= |items|
    }

    /** The elements still to be yielded, in order. */
    function Remaining(): seq<T>
      reads this
      requires Valid()
    {
      items[pos..]
    }

    constructor (s: seq<T>)
      ensures Valid() && items == s && pos == 0 && pulls == 0
      ensures Remaining() == s
    {
      items, pos, pulls := s, 0, 0;
    }

    /** `Iterator::next`: yields the next element and moves past it, or
        reports exhaustion and stays where it is. */
    method Next() returns (x: Option<T>)
      requires Valid()
      modifies this
      ensures Valid() && pulls == old(pulls) + 1
      ensures x.None? <==> old(Remaining()) == []
      ensures x.Some? ==> x.value == old(Remaining())[0] && pos == old(pos) + 1
      ensures x.None? ==> pos == old(pos)
      ensures Remaining() == if x.Some? then old(Remaining())[1..] else []
    {
      pulls := pulls + 1;
      if pos < |items| {
        x := Some(items[pos]);
        pos := pos + 1;
      } else {
        x := None;
      }
    }

    /** `Iterator::size_hint`: exact for an iterator over a sequence. */
    function Hint(): (h: SizeHint)
      reads this
      requires Valid()
      ensures Sound(h, |Remaining()|)
      ensures h.upper == Some(h.lower)
    {
      SizeHint(|items| - pos, Some(|items| - pos))
    }
  }
}
